/**
 * The college-email validator: after the framework's base email check, the
 * address must match the regular expression `@<domain>$` built from the
 * configured domain with its dots escaped, searched case-insensitively.
 *
 * The regular expression is modelled as text (what the constructor builds),
 * compiled to atoms (what the regex engine reads from that text), and searched
 * the way `re.search` does. The search is then shown to be a case-insensitive
 * suffix test on `"@" + domain`.
 */
module CollegeEmail {

  const DefaultDomain: string := "jainuniversity.ac.in"
  /** The domain named in the rejection message, whatever domain is configured. */
  const ReportedDomain: string := "@jainuniversity.ac.in"
  const InvalidDomainCode: string := "invalid_college_domain"
  /** The code of the base email validator's rejection. */
  const InvalidEmailCode: string := "invalid"

  /** Characters a domain may hold in this model: letters, digits, `.` and `-`.
      Apart from `.`, none of them is special in a regular expression, so the
      escaping of dots is the only escaping the domain needs. */
  predicate PlainChar(c: char) {
    ('a' <= c <= 'z') || ('A' <= c <= 'Z') || ('0' <= c <= '9') || c == '.' || c == '-'
  }

  predicate PlainDomain(domain: string) {
    forall i :: 0 <= i < |domain| ==> PlainChar(domain[i])
  }

  /** `domain.replace('.', r'\.')`. */
  function Escape(domain: string): (r: string)
    ensures |r| >= |domain|
    ensures '.' !in domain ==> r == domain
    ensures forall i :: 0 <= i < |r| ==> r[i] == '\\' || r[i] in domain
  {
    if domain == [] then []
    else (if domain[0] == '.' then "\\." else [domain[0]]) + Escape(domain[1..])
  }

  /** One position of a compiled pattern: a character to match, or `.`, which
      matches any character but a newline. */
  datatype Atom = Lit(c: char) | AnyButNewline

  /** A compiled pattern: its atoms and whether it ends with the `$` anchor. */
  datatype Regex = Regex(atoms: seq<Atom>, anchored: bool)

  /** How the regex engine reads pattern text built from plain characters,
      backslashes, dots and a final `$`. */
  function Atoms(text: string): seq<Atom> {
    if text == [] then []
    else if text[0] == '\\' && |text| >= 2 then [Lit(text[1])] + Atoms(text[2..])
    else if text[0] == '.' then [AnyButNewline] + Atoms(text[1..])
    else [Lit(text[0])] + Atoms(text[1..])
  }

  function Compile(text: string): Regex {
    if |text| > 0 && text[|text| - 1] == '$' then Regex(Atoms(text[..|text| - 1]), true)
    else Regex(Atoms(text), false)
  }

  /** A pattern that matches exactly the characters of `s`. */
  function Literal(s: string): (r: seq<Atom>)
    ensures |r| == |s|
    ensures forall i :: 0 <= i < |s| ==> r[i] == Lit(s[i])
  {
    if s == [] then [] else [Lit(s[0])] + Literal(s[1..])
  }

  /** Escaping is what makes the dots literal: the engine reads the escaped
      text of a plain domain back as the domain's own characters. */
  lemma {:induction false} EscapeCompilesToLiteral(domain: string)
    requires PlainDomain(domain)
    ensures Atoms(Escape(domain)) == Literal(domain)
  {
    if domain != [] {
      EscapeCompilesToLiteral(domain[1..]);
      var rest := Escape(domain[1..]);
      if domain[0] == '.' {
        assert Escape(domain) == "\\." + rest;
        assert (("\\." + rest)[2..]) == rest;
      } else {
        assert Escape(domain) == [domain[0]] + rest;
        assert ([domain[0]] + rest)[1..] == rest;
      }
    }
  }

  /** The validator object; its only state is the pattern text. */
  datatype Validator = Validator(domainPattern: string)

  /** `CollegeEmailValidator.__init__`: `'@' + escaped domain + '$'`. Its
      compiled form is the literal `@<domain>` anchored at the end. */
  function NewValidator(domain: string := DefaultDomain): (v: Validator)
    requires PlainDomain(domain)
    ensures Compile(v.domainPattern) == Regex(Literal("@" + domain), true)
  {
    var text := "@" + Escape(domain) + "$";
    assert text[..|text| - 1] == "@" + Escape(domain);
    EscapeCompilesToLiteral(domain);
    assert Atoms("@" + Escape(domain)) == [Lit('@')] + Atoms(Escape(domain)) by {
      assert ("@" + Escape(domain))[1..] == Escape(domain);
    }
    assert Literal("@" + domain) == [Lit('@')] + Literal(domain) by {
      assert ("@" + domain)[1..] == domain;
    }
    Validator(text)
  }

  /** ASCII case folding, the part of `re.IGNORECASE` this model covers. */
  function Lower(c: char): char {
    if 'A' <= c <= 'Z' then (c as int - 'A' as int + 'a' as int) as char else c
  }

  predicate AtomMatches(a: Atom, c: char) {
    match a
    case Lit(x) => Lower(x) == Lower(c)
    case AnyButNewline => c != '\n'
  }

  /** The atoms match `value` starting at position `i`. */
  predicate MatchesAt(atoms: seq<Atom>, value: string, i: nat) {
    && i + |atoms| <= |value|
    && forall j :: 0 <= j < |atoms| ==> AtomMatches(atoms[j], value[i + j])
  }

  /** Where `$` may stand: at the very end, or just before a final newline. */
  predicate EndAnchor(value: string, k: nat) {
    k == |value| || (k + 1 == |value| && value[k] == '\n')
  }

  predicate MatchHere(re: Regex, value: string, i: nat) {
    MatchesAt(re.atoms, value, i) && (re.anchored ==> EndAnchor(value, i + |re.atoms|))
  }

  /** `re.search` from position `i` on: try every start position in turn. */
  function SearchFrom(re: Regex, value: string, i: nat): (found: bool)
    requires i <= |value|
    ensures found <==> exists j :: i <= j <= |value| && MatchHere(re, value, j)
    decreases |value| - i
  {
    if MatchHere(re, value, i) then true
    else if i == |value| then false
    else SearchFrom(re, value, i + 1)
  }

  function Search(re: Regex, value: string): bool {
    SearchFrom(re, value, 0)
  }

  /** The characters of `value` from position `i` on agree with `s`, ignoring ASCII case. */
  predicate AgreesAt(s: string, value: string, i: nat) {
    && i + |s| <= |value|
    && forall j :: 0 <= j < |s| ==> Lower(value[i + j]) == Lower(s[j])
  }

  /** `value` ends with `suffix`, ignoring ASCII case. */
  predicate EndsWithIgnoringCase(value: string, suffix: string) {
    |suffix| <= |value| && AgreesAt(suffix, value, |value| - |suffix|)
  }

  /** A literal matches exactly where the text agrees with it. */
  lemma {:induction false} LiteralMatchesAt(s: string, value: string, i: nat)
    ensures MatchesAt(Literal(s), value, i) <==> AgreesAt(s, value, i)
  {
    var atoms := Literal(s);
    if AgreesAt(s, value, i) {
      forall j | 0 <= j < |atoms|
        ensures AtomMatches(atoms[j], value[i + j])
      {
        assert atoms[j] == Lit(s[j]);
      }
    }
    if MatchesAt(atoms, value, i) {
      forall j | 0 <= j < |s|
        ensures Lower(value[i + j]) == Lower(s[j])
      {
        assert AtomMatches(atoms[j], value[i + j]);
      }
    }
  }

  /** Agreement inside a prefix is agreement in the whole text. */
  lemma {:induction false} AgreesInPrefix(s: string, value: string, i: nat, n: nat)
    requires i + |s| <= n <= |value|
    ensures AgreesAt(s, value[..n], i) <==> AgreesAt(s, value, i)
  {
    assert forall m :: 0 <= m < n ==> value[..n][m] == value[m];
  }

  /** An anchored literal matches at `j` exactly when the text agrees with the
      literal there and the literal ends where `$` may stand. */
  lemma {:induction false} AnchoredLiteralMatch(s: string, value: string, j: nat)
    ensures MatchHere(Regex(Literal(s), true), value, j) <==>
              AgreesAt(s, value, j) && EndAnchor(value, j + |s|)
  {
    var re := Regex(Literal(s), true);
    assert |re.atoms| == |s|;
    assert MatchHere(re, value, j) == (MatchesAt(re.atoms, value, j) && EndAnchor(value, j + |s|));
    LiteralMatchesAt(s, value, j);
  }

  /** The value ends with `s`, or does so once a single trailing newline is removed. */
  predicate EndsWithBeforeNewline(value: string, s: string) {
    || EndsWithIgnoringCase(value, s)
    || (|value| > 0 && value[|value| - 1] == '\n' && EndsWithIgnoringCase(value[..|value| - 1], s))
  }

  /** An anchored match found anywhere is a suffix, perhaps before a final newline. */
  lemma {:induction false} AnchoredMatchIsSuffix(s: string, value: string, j: nat)
    requires AgreesAt(s, value, j) && EndAnchor(value, j + |s|)
    ensures EndsWithBeforeNewline(value, s)
  {
    var n := |value|;
    if j + |s| != n {
      AgreesInPrefix(s, value, j, n - 1);
    }
  }

  /** A suffix, perhaps before a final newline, is where the anchored literal matches. */
  lemma {:induction false} SuffixIsAnchoredMatch(s: string, value: string)
    requires EndsWithBeforeNewline(value, s)
    ensures exists j :: 0 <= j <= |value| && AgreesAt(s, value, j) && EndAnchor(value, j + |s|)
  {
    var n := |value|;
    if EndsWithIgnoringCase(value, s) {
      assert EndAnchor(value, n - |s| + |s|);
    } else {
      AgreesInPrefix(s, value, n - 1 - |s|, n - 1);
      assert EndAnchor(value, n - 1 - |s| + |s|);
    }
  }

  /** What the anchored search of a literal means: the value ends with the
      literal, or does so once a single trailing newline is removed. */
  lemma {:induction false} AnchoredLiteralSearch(s: string, value: string)
    ensures Search(Regex(Literal(s), true), value) <==> EndsWithBeforeNewline(value, s)
  {
    var re := Regex(Literal(s), true);
    if EndsWithBeforeNewline(value, s) {
      SuffixIsAnchoredMatch(s, value);
      var j :| 0 <= j <= |value| && AgreesAt(s, value, j) && EndAnchor(value, j + |s|);
      AnchoredLiteralMatch(s, value, j);
    }
    if Search(re, value) {
      var j :| 0 <= j <= |value| && MatchHere(re, value, j);
      AnchoredLiteralMatch(s, value, j);
      AnchoredMatchIsSuffix(s, value, j);
    }
  }

  /** A validator's verdict: accepted, or rejected with a code and, for the
      domain rejection, the domain named in the message. */
  datatype Verdict = Accepted | Rejected(code: string, domainParam: string)

  /** `CollegeEmailValidator.__call__`. `baseAccepts` is the verdict of the
      framework's own email format check, which runs (and raises) first. */
  function Validate(v: Validator, value: string, baseAccepts: bool): (r: Verdict)
    ensures !baseAccepts ==> r == Rejected(InvalidEmailCode, "")
    ensures baseAccepts ==> (r.Accepted? <==> Search(Compile(v.domainPattern), value))
    ensures baseAccepts && r.Rejected? ==> r == Rejected(InvalidDomainCode, ReportedDomain)
  {
    if !baseAccepts then Rejected(InvalidEmailCode, "")
    else if Search(Compile(v.domainPattern), value) then Accepted
    else Rejected(InvalidDomainCode, ReportedDomain)
  }

  /** The domain rule in plain words: an address that passes the base check is
      accepted exactly when it ends with `@` and the domain, in any letter case
      (a final newline aside, which the base check itself refuses). */
  lemma {:induction false} AcceptedIffDomainSuffix(domain: string, value: string)
    requires PlainDomain(domain)
    ensures Validate(NewValidator(domain), value, true).Accepted? <==>
              EndsWithBeforeNewline(value, "@" + domain)
  {
    AnchoredLiteralSearch("@" + domain, value);
  }

  lemma {:induction false} DefaultDomainIsPlain()
    ensures PlainDomain(DefaultDomain)
  {
  }

  /** Letter case never matters: an address at any spelling of the domain
      that agrees with it up to case is accepted. */
  lemma {:induction false} CaseIsIgnored(domain: string, local: string, spelling: string)
    requires PlainDomain(domain)
    requires |spelling| == |domain|
    requires forall j :: 0 <= j < |domain| ==> Lower(spelling[j]) == Lower(domain[j])
    ensures Validate(NewValidator(domain), local + "@" + spelling, true) == Accepted
  {
    var value := local + "@" + spelling;
    var suffix := "@" + domain;
    AcceptedIffDomainSuffix(domain, value);
    forall j | 0 <= j < |suffix|
      ensures Lower(value[|local| + j]) == Lower(suffix[j])
    {
      if j > 0 {
        assert value[|local| + j] == spelling[j - 1];
        assert suffix[j] == domain[j - 1];
      }
    }
    assert AgreesAt(suffix, value, |local|);
  }

  /** One character of the required suffix that disagrees with the value, up
      to case, is enough for a domain rejection (the value not ending in a newline). */
  lemma {:induction false} MismatchRejected(domain: string, value: string, p: nat)
    requires PlainDomain(domain)
    requires |domain| + 1 <= |value| && value[|value| - 1] != '\n'
    requires p <= |domain|
    requires Lower(value[|value| - |domain| - 1 + p]) != Lower(("@" + domain)[p])
    ensures Validate(NewValidator(domain), value, true) == Rejected(InvalidDomainCode, ReportedDomain)
  {
    var suffix := "@" + domain;
    assert !AgreesAt(suffix, value, |value| - |suffix|) by {
      assert Lower(value[|value| - |suffix| + p]) != Lower(suffix[p]);
    }
    assert !EndsWithBeforeNewline(value, suffix);
    AcceptedIffDomainSuffix(domain, value);
  }

  /** Dots are literal: replacing any dot of the domain by another character
      (a newline aside) gives an address that is refused. */
  lemma {:induction false} DotsMatchOnlyDots(domain: string, local: string, k: nat, c: char)
    requires PlainDomain(domain)
    requires k < |domain| && domain[k] == '.'
    requires c != '.' && c != '\n'
    ensures Validate(NewValidator(domain), local + "@" + domain[k := c], true)
            == Rejected(InvalidDomainCode, ReportedDomain)
  {
    var value := local + "@" + domain[k := c];
    assert value[|value| - |domain| - 1 + (1 + k)] == c;
    assert ("@" + domain)[1 + k] == '.';
    assert value[|value| - 1] == domain[k := c][|domain| - 1];
    MismatchRejected(domain, value, 1 + k);
  }

  /** The `@` belongs to the required suffix: an address at any host whose
      name merely ends with the domain is refused. */
  lemma {:induction false} SubdomainRejected(domain: string, local: string, host: string)
    requires PlainDomain(domain) && |domain| > 0
    requires |host| > 0 && host[|host| - 1] != '@'
    ensures Validate(NewValidator(domain), local + "@" + host + domain, true)
            == Rejected(InvalidDomainCode, ReportedDomain)
  {
    var value := local + "@" + host + domain;
    assert value[|value| - |domain| - 1] == host[|host| - 1];
    assert value[|value| - 1] == domain[|domain| - 1];
    MismatchRejected(domain, value, 0);
  }

  /** Whatever domain is configured, a domain rejection names the default
      domain: for instance an address at the college, checked by a validator
      built for a domain with a different last letter. */
  lemma {:induction false} CustomDomainReportsDefault(domain: string, value: string)
    requires PlainDomain(domain) && |domain| > 0
    requires |value| > 0 && value[|value| - 1] != '\n'
    requires Lower(value[|value| - 1]) != Lower(domain[|domain| - 1])
    ensures Validate(NewValidator(domain), value, true) == Rejected(InvalidDomainCode, ReportedDomain)
  {
    if |domain| + 1 <= |value| {
      assert ("@" + domain)[|domain|] == domain[|domain| - 1];
      MismatchRejected(domain, value, |domain|);
    } else {
      AcceptedIffDomainSuffix(domain, value);
    }
  }
}
