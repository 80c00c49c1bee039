/**
 * Domain restrictions of utils/security-check.ts: what a list accepts against the
 * label sequences of the names, and what a list must look like to be stored.
 */
module DomainLists {
  import opened Wrappers
  import opened Text

  function Labels(domain: string): (labels: seq<string>)
    ensures labels != []
  {
    Split(domain, '.')
  }

  predicate IsWildcard(domain: string) {
    "*." <= domain
  }

  /** The name without a leading "*.". */
  function Base(domain: string): string {
    if IsWildcard(domain) then domain[2..] else domain
  }

  // ----- matching a domain against a stored list

  function ForMatching(text: string): string {
    Trim(Lower(text))
  }

  /** The comparison the program makes, on normalized text. */
  predicate RestrictionMatches(domain: string, restriction: string) {
    || restriction == domain
    || (IsWildcard(restriction) && (EndsWith(domain, "." + restriction[2..]) || domain == restriction[2..]))
  }

  ghost predicate IsSuffix(suffix: seq<string>, labels: seq<string>) {
    |suffix| <= |labels| && labels[|labels| - |suffix|..] == suffix
  }

  /** A name is covered by an equal entry, or by a wildcard whose labels end its own. */
  ghost predicate Covered(domain: string, restriction: string) {
    restriction == domain || (IsWildcard(restriction) && IsSuffix(Labels(Base(restriction)), Labels(domain)))
  }

  lemma SuffixMatches(domain: string, tail: string)
    requires IsSuffix(Labels(tail), Labels(domain))
    ensures EndsWith(domain, "." + tail) || domain == tail
  {
    var labels, last := Labels(domain), Labels(tail);
    var front := labels[..|labels| - |last|];
    assert labels == front + last;
    JoinSplit(domain, '.');
    JoinSplit(tail, '.');
    if front == [] {
      assert labels == last;
    } else {
      JoinAppend(front, last, '.');
      assert domain == Join(front, '.') + ("." + tail);
    }
  }

  lemma MatchesSuffix(domain: string, tail: string)
    requires EndsWith(domain, "." + tail) || domain == tail
    ensures IsSuffix(Labels(tail), Labels(domain))
  {
    if domain != tail {
      var front := domain[..|domain| - |tail| - 1];
      assert domain == front + ['.'] + tail;
      SplitAt(front, tail, '.');
    }
  }

  /** The string test is the label test: "*.b.c" covers "b.c" and "a.b.c", never "ab.c". */
  lemma MatchExactlyWhen(domain: string, restriction: string)
    ensures RestrictionMatches(domain, restriction) <==> Covered(domain, restriction)
  {
    if IsWildcard(restriction) {
      var tail := restriction[2..];
      if IsSuffix(Labels(tail), Labels(domain)) {
        SuffixMatches(domain, tail);
      }
      if EndsWith(domain, "." + tail) || domain == tail {
        MatchesSuffix(domain, tail);
      }
    }
  }

  method ValidateDomainAgainstAllowList(domain: string, allowedDomains: seq<string>) returns (allowed: bool)
    ensures allowed <==> exists r :: r in allowedDomains && Covered(ForMatching(domain), ForMatching(r))
  {
    var normalizedClientDomain := ForMatching(domain);
    for i := 0 to |allowedDomains|
      invariant forall r :: r in allowedDomains[..i] ==> !Covered(normalizedClientDomain, ForMatching(r))
    {
      var restriction := allowedDomains[i];
      assert restriction in allowedDomains && allowedDomains[..i + 1] == allowedDomains[..i] + [restriction];
      var normalizedRestriction := ForMatching(restriction);
      MatchExactlyWhen(normalizedClientDomain, normalizedRestriction);
      if normalizedRestriction == normalizedClientDomain {
        return true;
      }
      if IsWildcard(normalizedRestriction) {
        var wildcardDomain := normalizedRestriction[2..];
        if EndsWith(normalizedClientDomain, "." + wildcardDomain) || normalizedClientDomain == wildcardDomain {
          return true;
        }
      }
    }
    assert allowedDomains[..|allowedDomains|] == allowedDomains;
    return false;
  }

  // ----- the three regular expressions

  predicate IsLetter(c: char) {
    'a' <= c <= 'z' || 'A' <= c <= 'Z'
  }

  predicate IsAlphanumeric(c: char) {
    IsLetter(c) || IsDigit(c)
  }

  /** localhost, 127.0.0.1 or ::1, optionally with a port. */
  predicate IsLocalhost(domain: string) {
    IsHostWithPort(domain, "localhost") || IsHostWithPort(domain, "127.0.0.1") || IsHostWithPort(domain, "::1")
  }

  predicate IsHostWithPort(domain: string, host: string) {
    && host <= domain
    && (domain == host
        || (|domain| > |host| + 1 && domain[|host|] == ':' && forall c :: c in domain[|host| + 1..] ==> IsDigit(c)))
  }

  /** [a-zA-Z0-9]([a-zA-Z0-9-]{0,61}[a-zA-Z0-9])? */
  predicate IsLabel(name: string) {
    && name != [] && IsAlphanumeric(name[0])
    && (|name| == 1
        || (|name| <= 63 && IsAlphanumeric(name[|name| - 1])
            && forall i :: 1 <= i < |name| - 1 ==> IsAlphanumeric(name[i]) || name[i] == '-'))
  }

  /** A label, then any number of labels behind dots. */
  ghost predicate IsDottedLabels(text: string) {
    exists labels: seq<string> :: labels != [] && (forall l :: l in labels ==> IsLabel(l)) && text == Join(labels, '.')
  }

  predicate HasLabelsOnly(text: string) {
    forall l :: l in Labels(text) ==> IsLabel(l)
  }

  lemma LabelIsLdh(name: string)
    requires IsLabel(name)
    ensures forall c :: c in name ==> IsAlphanumeric(c) || c == '-'
    ensures 1 <= |name| <= 63
  {
    forall c | c in name ensures IsAlphanumeric(c) || c == '-' {
      var i :| 0 <= i < |name| && name[i] == c;
    }
  }

  /** Splitting at the dots decides the format. */
  lemma FormatExactlyWhen(text: string)
    ensures IsDottedLabels(text) <==> HasLabelsOnly(text)
  {
    if HasLabelsOnly(text) {
      JoinSplit(text, '.');
      assert Labels(text) != [] && text == Join(Labels(text), '.');
    }
    if IsDottedLabels(text) {
      var labels: seq<string> :|
        labels != [] && (forall l :: l in labels ==> IsLabel(l)) && text == Join(labels, '.');
      forall l | l in labels ensures '.' !in l { LabelIsLdh(l); }
      SplitJoin(labels, '.');
    }
  }

  /** \.[a-zA-Z]{2,}$ somewhere in the text. */
  predicate HasTld(text: string) {
    exists i :: 0 <= i < |text| - 2 && text[i] == '.' && forall c :: c in text[i + 1..] ==> IsLetter(c)
  }

  predicate IsTld(name: string) {
    |name| >= 2 && forall c :: c in name ==> IsLetter(c)
  }

  lemma LettersBehindDot(text: string, front: string, last: string)
    requires text == front + ['.'] + last && |last| >= 2 && forall c :: c in last ==> IsLetter(c)
    ensures |Labels(text)| >= 2 && IsTld(Labels(text)[|Labels(text)| - 1])
  {
    hide Labels;
    assert !IsLetter('.');
    LastLabel(front, last);
  }

  lemma TldIsLastLabel(text: string)
    requires HasTld(text)
    ensures |Labels(text)| >= 2 && IsTld(Labels(text)[|Labels(text)| - 1])
  {
    hide Labels, IsTld;
    var i :| 0 <= i < |text| - 2 && text[i] == '.' && forall c :: c in text[i + 1..] ==> IsLetter(c);
    LettersBehindDot(text, text[..i], text[i + 1..]);
  }

  lemma LastLabelIsTld(text: string)
    requires |Labels(text)| >= 2 && IsTld(Labels(text)[|Labels(text)| - 1])
    ensures HasTld(text)
  {
    var labels := Labels(text);
    var front, last := labels[..|labels| - 1], labels[|labels| - 1];
    assert labels == front + [last];
    JoinSplit(text, '.');
    JoinAppend(front, [last], '.');
    var i := |Join(front, '.')|;
    assert text == Join(front, '.') + ['.'] + last && text[i] == '.' && text[i + 1..] == last;
  }

  /** The search for a top-level domain looks at the last label, behind a dot. */
  lemma TldExactlyWhen(text: string)
    ensures HasTld(text) <==> |Labels(text)| >= 2 && IsTld(Labels(text)[|Labels(text)| - 1])
  {
    hide HasTld, IsTld, Labels;
    if HasTld(text) {
      TldIsLastLabel(text);
    } else if |Labels(text)| >= 2 && IsTld(Labels(text)[|Labels(text)| - 1]) {
      LastLabelIsTld(text);
    }
  }

  lemma LastLabel(front: string, last: string)
    requires '.' !in last
    ensures |Labels(front + ['.'] + last)| >= 2
    ensures Labels(front + ['.'] + last)[|Labels(front + ['.'] + last)| - 1] == last
  {
    SplitAt(front, last, '.');
    SplitFree(last, '.');
  }

  // ----- checking one normalized entry, in the program's order

  /** A leading, trailing or double dot. */
  predicate HasStrayDot(text: string) {
    "." <= text || EndsWith(text, ".") || exists i :: 0 <= i < |text| - 1 && text[i] == '.' && text[i + 1] == '.'
  }

  function CountStars(text: string): nat {
    if text == [] then 0 else (if text[0] == '*' then 1 else 0) + CountStars(text[1..])
  }

  datatype Reason =
    | NoDomainProvided
    | DuplicatesProvided
    | DomainTooLong
    | InvalidDots
    | InvalidFormat
    | WildcardNotAllowed
    | InvalidWildcardDomain
    | TldMissing
    | OnlyOneWildcard
    | InvalidWildcard
    | InvalidDomain

  ghost function Fault(domain: string, isAllowWildcard: bool): Option<Reason> {
    if IsLocalhost(domain) then None
    else if |domain| > 253 then Some(DomainTooLong)
    else if HasStrayDot(domain) then Some(InvalidDots)
    else if !IsDottedLabels(Base(domain)) then Some(InvalidFormat)
    else if !isAllowWildcard && '*' in domain then Some(WildcardNotAllowed)
    else if IsWildcard(domain) && (domain[2..] == "" || '.' !in domain[2..] || !HasTld(domain[2..]))
    then Some(InvalidWildcardDomain)
    else if !IsWildcard(domain) && !HasTld(domain) then Some(TldMissing)
    else if CountStars(domain) > 1 then Some(OnlyOneWildcard)
    else if '*' in domain && (!IsWildcard(domain) || domain == "*") then Some(InvalidWildcard)
    else if exists name :: name in Labels(Base(domain)) && (|name| == 0 || |name| > 63) then Some(InvalidDomain)
    else None
  }

  /** What an entry needs: the rest of the checks cannot fail. */
  ghost predicate Acceptable(domain: string, isAllowWildcard: bool) {
    || IsLocalhost(domain)
    || (|domain| <= 253 && HasLabelsOnly(Base(domain)) && HasTld(Base(domain))
        && (IsWildcard(domain) ==> isAllowWildcard))
  }

  predicate NotFromLateChecks(fault: Option<Reason>) {
    fault.Some? ==> !fault.value.OnlyOneWildcard? && !fault.value.InvalidWildcard? && !fault.value.InvalidDomain?
  }

  lemma {:induction false} NoStars(text: string)
    requires '*' !in text
    ensures CountStars(text) == 0
  {
    if text != [] {
      assert text[0] in text;
      NoStars(text[1..]);
    }
  }

  lemma {:induction false} CharInLabel(text: string, c: char)
    requires c in text && c != '.'
    ensures exists l :: l in Labels(text) && c in l
  {
    var rest := Split(text[1..], '.');
    var all := Prepend(text[0], '.', rest);
    assert Labels(text) == all;
    if text[0] == c {
      assert c in all[0];
    } else {
      CharInLabel(text[1..], c);
      var k :| 0 <= k < |rest| && c in rest[k];
      assert c in all[if text[0] == '.' then k + 1 else k];
    }
  }

  lemma LabelsHoldNoStar(text: string)
    requires HasLabelsOnly(text)
    ensures '*' !in text
  {
    if '*' in text {
      CharInLabel(text, '*');
      var l :| l in Labels(text) && '*' in l;
      LabelIsLdh(l);
    }
  }

  lemma EmptyLabelAt(text: string, i: nat)
    requires i <= |text|
    requires (i == 0 || text[i - 1] == '.') && (i == |text| || text[i] == '.')
    ensures "" in Labels(text)
  {
    var front, back := text[..i], text[i..];
    assert text == front + back;
    SplitFree("", '.');
    if i == |text| {
      if i > 0 {
        assert text == text[..i - 1] + ['.'] + "";
        SplitAt(text[..i - 1], "", '.');
      }
    } else {
      assert back == "" + ['.'] + back[1..];
      SplitAt("", back[1..], '.');
      if i > 0 {
        assert text == text[..i - 1] + ['.'] + back;
        SplitAt(text[..i - 1], back, '.');
      }
    }
  }

  /** The dot patterns all leave an empty label. */
  lemma StrayDotLeavesEmptyLabel(text: string)
    requires HasStrayDot(text)
    ensures "" in Labels(text)
  {
    if "." <= text {
      EmptyLabelAt(text, 0);
    } else if EndsWith(text, ".") {
      EmptyLabelAt(text, |text|);
    } else {
      var i :| 0 <= i < |text| - 1 && text[i] == '.' && text[i + 1] == '.';
      EmptyLabelAt(text, i + 1);
    }
  }

  lemma StrayDotInWildcard(domain: string)
    requires IsWildcard(domain) && HasStrayDot(domain)
    ensures "" in Labels(Base(domain))
  {
    var base := Base(domain);
    assert domain[0] == '*' && domain[1] == '.';
    if EndsWith(domain, ".") {
      assert domain[|domain| - 1] == '.';
      EmptyLabelAt(base, |base|);
    } else {
      var i :| 0 <= i < |domain| - 1 && domain[i] == '.' && domain[i + 1] == '.';
      EmptyLabelAt(base, i - 1);
    }
  }

  lemma NoStrayDot(domain: string)
    requires HasLabelsOnly(Base(domain))
    ensures !HasStrayDot(domain)
  {
    assert !IsLabel("");
    if HasStrayDot(domain) {
      if IsWildcard(domain) { StrayDotInWildcard(domain); } else { StrayDotLeavesEmptyLabel(domain); }
    }
  }

  lemma TldNeedsDot(text: string)
    requires HasTld(text)
    ensures text != "" && '.' in text
  {
  }

  lemma StarsOfFormat(domain: string)
    requires HasLabelsOnly(Base(domain))
    ensures CountStars(domain) <= 1 && ('*' in domain <==> IsWildcard(domain)) && domain != "*"
  {
    LabelsHoldNoStar(Base(domain));
    NoStars(Base(domain));
    if IsWildcard(domain) {
      assert domain == "*." + Base(domain);
      assert domain[0] == '*' && domain[1..][0] == '.' && domain[1..][1..] == Base(domain);
    }
  }

  lemma LabelLengths(text: string)
    requires HasLabelsOnly(text)
    ensures forall l :: l in Labels(text) ==> 1 <= |l| <= 63
  {
    forall l | l in Labels(text) ensures 1 <= |l| <= 63 {
      LabelIsLdh(l);
    }
  }

  /** The checks behind the format never speak, and those before it only anticipate it. */
  lemma FaultExactlyWhen(domain: string, isAllowWildcard: bool)
    ensures Fault(domain, isAllowWildcard) == None <==> Acceptable(domain, isAllowWildcard)
    ensures NotFromLateChecks(Fault(domain, isAllowWildcard))
  {
    FormatExactlyWhen(Base(domain));
    if HasLabelsOnly(Base(domain)) {
      NoStrayDot(domain);
      StarsOfFormat(domain);
      LabelLengths(Base(domain));
      if HasTld(Base(domain)) { TldNeedsDot(Base(domain)); }
    }
  }

  /** Letters, digits and inner hyphens, at most 63 of them. */
  predicate IsHostLabel(name: string) {
    && 1 <= |name| <= 63 && name[0] != '-' && name[|name| - 1] != '-'
    && forall c :: c in name ==> IsAlphanumeric(c) || c == '-'
  }

  /** An accepted name is a host name in the sense of section 2.3.4 of RFC 1035, behind at most one leading star. */
  lemma AcceptedNames(domain: string, isAllowWildcard: bool)
    requires Acceptable(domain, isAllowWildcard) && !IsLocalhost(domain)
    ensures |domain| <= 253 && CountStars(domain) <= 1 && ('*' in domain ==> IsWildcard(domain) && isAllowWildcard)
    ensures |Labels(Base(domain))| >= 2 && IsTld(Labels(Base(domain))[|Labels(Base(domain))| - 1])
    ensures forall l :: l in Labels(Base(domain)) ==> IsHostLabel(l)
  {
    hide Labels, HasTld, IsTld, CountStars, IsLabel, IsHostLabel;
    StarsOfFormat(domain);
    TldExactlyWhen(Base(domain));
    forall l | l in Labels(Base(domain)) ensures IsHostLabel(l) {
      LabelExactlyWhen(l);
    }
  }

  lemma LabelExactlyWhen(name: string)
    ensures IsLabel(name) <==> IsHostLabel(name)
  {
    if IsLabel(name) { LabelIsLdh(name); }
    if IsHostLabel(name) {
      assert forall i :: 0 <= i < |name| ==> name[i] in name;
    }
  }

  predicate HostLabelsOnly(text: string) {
    forall l :: l in Labels(text) ==> IsHostLabel(l)
  }

  /** Two labels at least, the last of them letters. */
  predicate EndsInTld(text: string) {
    |Labels(text)| >= 2 && IsTld(Labels(text)[|Labels(text)| - 1])
  }

  /** A label is missing before, between or behind the dots. */
  predicate LabelMissing(text: string) {
    |Labels(text)| >= 2 && "" in Labels(text)
  }

  /** An empty label between two others is a double dot, and at either end a dot there. */
  lemma JoinAround(front: seq<string>, back: seq<string>)
    requires front != [] || back != []
    ensures HasStrayDot(Join(front + [""] + back, '.'))
  {
    var none := [""];
    if front == [] {
      assert front + none + back == none + back;
      JoinAppend(none, back, '.');
    } else if back == [] {
      assert front + none + back == front + none;
      JoinAppend(front, none, '.');
    } else {
      JoinAppend(front + none, back, '.');
      JoinAppend(front, none, '.');
      DoubleDot(Join(front, '.'), Join(back, '.'));
    }
  }

  lemma DoubleDot(a: string, b: string)
    ensures HasStrayDot(a + ['.'] + "" + ['.'] + b)
  {
    var text, i := a + ['.'] + "" + ['.'] + b, |a|;
    assert text[i] == '.' && text[i + 1] == '.';
  }

  lemma MissingLabelIsStrayDot(text: string)
    requires LabelMissing(text)
    ensures HasStrayDot(text)
  {
    hide HasStrayDot, Split, Join;
    var labels := Labels(text);
    var k :| 0 <= k < |labels| && labels[k] == "";
    JoinSplit(text, '.');
    assert labels == labels[..k] + [""] + labels[k + 1..];
    JoinAround(labels[..k], labels[k + 1..]);
  }

  lemma StrayDotIsDot(text: string)
    requires HasStrayDot(text)
    ensures '.' in text
  {
    if "." <= text {
      assert text[0] == '.';
    } else if EndsWith(text, ".") {
      assert text[|text| - 1] == '.';
    }
  }

  lemma StrayDotExactlyWhen(text: string)
    ensures HasStrayDot(text) <==> LabelMissing(text)
  {
    hide HasStrayDot, Split;
    if HasStrayDot(text) {
      StrayDotLeavesEmptyLabel(text);
      StrayDotIsDot(text);
      SplitTwice(text, '.');
    }
    if LabelMissing(text) { MissingLabelIsStrayDot(text); }
  }

  lemma HostLabelsExactlyWhen(text: string)
    ensures HasLabelsOnly(text) <==> HostLabelsOnly(text)
  {
    forall l | l in Labels(text) ensures IsLabel(l) <==> IsHostLabel(l) { LabelExactlyWhen(l); }
  }

  /** What each reason says of the domain, and that exactly such a domain is refused for it. */
  lemma ReasonsExactlyWhen(domain: string, isAllowWildcard: bool)
    requires !IsLocalhost(domain)
    ensures var fault, base := Fault(domain, isAllowWildcard), Base(domain);
            && (fault == Some(DomainTooLong) <==> |domain| > 253)
            && (fault == Some(InvalidDots) <==> |domain| <= 253 && LabelMissing(domain))
            && (fault == Some(InvalidFormat) <==>
                  |domain| <= 253 && !LabelMissing(domain) && !HostLabelsOnly(base))
            && (fault == Some(WildcardNotAllowed) <==>
                  |domain| <= 253 && HostLabelsOnly(base) && IsWildcard(domain) && !isAllowWildcard)
            && (fault == Some(InvalidWildcardDomain) <==>
                  |domain| <= 253 && HostLabelsOnly(base) && IsWildcard(domain) && isAllowWildcard && !EndsInTld(base))
            && (fault == Some(TldMissing) <==>
                  |domain| <= 253 && HostLabelsOnly(base) && !IsWildcard(domain) && !EndsInTld(base))
            && (fault == None <==>
                  && |domain| <= 253 && HostLabelsOnly(base) && EndsInTld(base)
                  && (IsWildcard(domain) ==> isAllowWildcard))
  {
    hide HasStrayDot, HasTld, HasLabelsOnly, HostLabelsOnly, LabelMissing, IsDottedLabels, CountStars, Labels, IsLabel;
    FaultExactlyWhen(domain, isAllowWildcard);
    FormatExactlyWhen(Base(domain));
    HostLabelsExactlyWhen(Base(domain));
    StrayDotExactlyWhen(domain);
    TldExactlyWhen(Base(domain));
    if HasLabelsOnly(Base(domain)) {
      NoStrayDot(domain);
      StarsOfFormat(domain);
      if HasTld(Base(domain)) { TldNeedsDot(Base(domain)); }
    }
  }

  /** Treated like localhost: one of three hosts, alone or with a port of digits. */
  lemma LocalExactlyWhen(domain: string)
    ensures IsLocalhost(domain) <==>
              exists host: string :: host in ["localhost", "127.0.0.1", "::1"] && HostMaybePort(domain, host)
  {
    var hosts := ["localhost", "127.0.0.1", "::1"];
    assert hosts[0] in hosts && hosts[1] in hosts && hosts[2] in hosts;
    forall host: string | host in hosts ensures IsHostWithPort(domain, host) <==> HostMaybePort(domain, host) {
      PortExactlyWhen(domain, host);
    }
  }

  ghost predicate HostMaybePort(domain: string, host: string) {
    domain == host
    || exists port: string :: port != "" && (forall c :: c in port ==> IsDigit(c)) && domain == host + ":" + port
  }

  lemma PortExactlyWhen(domain: string, host: string)
    ensures IsHostWithPort(domain, host) <==> HostMaybePort(domain, host)
  {
    if IsHostWithPort(domain, host) && domain != host {
      assert domain == host + ":" + domain[|host| + 1..];
    }
    if port: string :| port != "" && (forall c :: c in port ==> IsDigit(c)) && domain == host + ":" + port {
      assert domain[|host| + 1..] == port;
    }
  }

  // ----- the program

  method CheckLabels(labels: seq<string>) returns (fault: Option<Reason>)
    ensures fault == if exists l :: l in labels && (|l| == 0 || |l| > 63) then Some(InvalidDomain) else None
  {
    for i := 0 to |labels|
      invariant forall l :: l in labels[..i] ==> !(|l| == 0 || |l| > 63)
    {
      var l := labels[i];
      assert l in labels && labels[..i + 1] == labels[..i] + [l];
      if |l| == 0 {
        return Some(InvalidDomain);
      }
      if |l| > 63 {
        return Some(InvalidDomain);
      }
    }
    assert labels[..|labels|] == labels;
    return None;
  }

  /** The checks after the duplicate check, in the program's order. */
  method CheckDomain(domain: string, isAllowWildcard: bool) returns (fault: Option<Reason>)
    ensures fault == Fault(domain, isAllowWildcard)
  {
    if IsLocalhost(domain) {
      return None;
    }
    if |domain| > 253 {
      return Some(DomainTooLong);
    }
    if HasStrayDot(domain) {
      return Some(InvalidDots);
    }
    FormatExactlyWhen(Base(domain));
    if !HasLabelsOnly(Base(domain)) {
      return Some(InvalidFormat);
    }
    if !isAllowWildcard && '*' in domain {
      return Some(WildcardNotAllowed);
    }
    if IsWildcard(domain) {
      var baseDomain := domain[2..];
      if baseDomain == "" || '.' !in baseDomain || !HasTld(baseDomain) {
        return Some(InvalidWildcardDomain);
      }
    } else {
      if !HasTld(domain) {
        return Some(TldMissing);
      }
    }
    fault := CheckStars(domain);
    if fault.None? {
      fault := CheckLabels(Labels(Base(domain)));
    }
  }

  method CheckStars(domain: string) returns (fault: Option<Reason>)
    ensures fault == if CountStars(domain) > 1 then Some(OnlyOneWildcard)
                     else if '*' in domain && (!IsWildcard(domain) || domain == "*") then Some(InvalidWildcard)
                     else None
  {
    if CountStars(domain) > 1 {
      return Some(OnlyOneWildcard);
    }
    if '*' in domain && (!IsWildcard(domain) || domain == "*") {
      return Some(InvalidWildcard);
    }
    return None;
  }

  function ForStoring(text: string): string {
    Lower(Trim(text))
  }

  /** Both normalizations find the core of a text and write it in lower case, in whichever order. */
  lemma NormalizedIs(front: string, core: string, back: string)
    requires AllSpace(front) && AllSpace(back) && NoOuterSpace(core)
    ensures ForMatching(front + core + back) == ForStoring(front + core + back) == Lower(core)
  {
    hide Lower, Trim;
    TrimFinds(front, core, back);
    LowerJoins(front + core, back);
    LowerJoins(front, core);
    LowerSpace(front);
    LowerSpace(back);
    LowerKeeps(core);
    TrimFinds(front, Lower(core), back);
  }

  /** Case and outer white space never make a difference, neither in matching nor in storing. */
  lemma CaseAndSpaceIgnored(front: string, core: string, back: string, front': string, core': string, back': string)
    requires AllSpace(front) && AllSpace(back) && NoOuterSpace(core)
    requires AllSpace(front') && AllSpace(back') && NoOuterSpace(core') && SameText(core, core')
    ensures ForMatching(front + core + back) == ForMatching(front' + core' + back')
    ensures ForStoring(front + core + back) == ForStoring(front' + core' + back')
  {
    NormalizedIs(front, core, back);
    NormalizedIs(front', core', back');
    LowerSame(core, core');
  }

  /** What is written in lower case without outer white space is left alone, and nothing else is. */
  lemma NormalExactlyWhen(text: string)
    ensures ForMatching(text) == text <==> NoUpperCase(text) && NoOuterSpace(text)
    ensures ForStoring(text) == ForMatching(text)
  {
    hide ForMatching, ForStoring, NoUpperCase, NoOuterSpace;
    NormalizedIsNormal(text);
    if NoUpperCase(text) && NoOuterSpace(text) { NormalKept(text); }
  }

  lemma NormalizedIsNormal(text: string)
    ensures NoUpperCase(ForMatching(text)) && NoOuterSpace(ForMatching(text)) && ForStoring(text) == ForMatching(text)
  {
    var front, core, back := CoreExists(text);
    hide Lower, Trim, ForMatching, ForStoring, NoUpperCase, NoOuterSpace;
    NormalizedIs(front, core, back);
    LowerKeeps(core);
  }

  lemma NormalKept(text: string)
    requires NoUpperCase(text) && NoOuterSpace(text)
    ensures ForMatching(text) == text
  {
    hide Lower, Trim, ForMatching, ForStoring, NoUpperCase, NoOuterSpace;
    var none := "";
    assert none + text + none == text;
    NormalizedIs(none, text, none);
    LowerKeeps(text);
  }

  /** Among the first n: each normalized entry is acceptable and differs from those before it. */
  ghost predicate StorableUpTo(domains: seq<string>, n: nat, isAllowWildcard: bool)
    requires n <= |domains|
  {
    forall i :: 0 <= i < n ==> StorableAt(domains, i, isAllowWildcard)
  }

  ghost predicate StorableAt(domains: seq<string>, i: nat, isAllowWildcard: bool)
    requires i < |domains|
  {
    && Acceptable(ForStoring(domains[i]), isAllowWildcard)
    && forall j :: 0 <= j < i ==> ForStoring(domains[j]) != ForStoring(domains[i])
  }

  ghost predicate Storable(domains: seq<string>, isAllowWildcard: bool) {
    StorableUpTo(domains, |domains|, isAllowWildcard)
  }

  /** What the entry at i is refused for, when those before it are in order. */
  ghost function ReasonAt(domains: seq<string>, i: nat, isAllowWildcard: bool): Option<Reason>
    requires i < |domains|
  {
    var domain := ForStoring(domains[i]);
    if domain == "" then Some(NoDomainProvided)
    else if exists j :: 0 <= j < i && ForStoring(domains[j]) == domain then Some(DuplicatesProvided)
    else Fault(domain, isAllowWildcard)
  }

  lemma EmptyIsUnacceptable(isAllowWildcard: bool)
    ensures !Acceptable("", isAllowWildcard)
  {
  }

  method CheckAcceptable(domain: string, isAllowWildcard: bool) returns (fault: Option<Reason>)
    ensures fault == Fault(domain, isAllowWildcard)
    ensures fault.None? <==> Acceptable(domain, isAllowWildcard)
    ensures NotFromLateChecks(fault)
  {
    fault := CheckDomain(domain, isAllowWildcard);
    FaultExactlyWhen(domain, isAllowWildcard);
  }

  lemma NotStorable(domains: seq<string>, i: nat, isAllowWildcard: bool)
    requires i < |domains|
    requires || !Acceptable(ForStoring(domains[i]), isAllowWildcard)
             || exists j :: 0 <= j < i && ForStoring(domains[j]) == ForStoring(domains[i])
    ensures !Storable(domains, isAllowWildcard)
  {
    assert !StorableAt(domains, i, isAllowWildcard);
  }

  lemma StorableNext(domains: seq<string>, i: nat, isAllowWildcard: bool)
    requires i < |domains| && StorableUpTo(domains, i, isAllowWildcard)
    requires Acceptable(ForStoring(domains[i]), isAllowWildcard)
    requires forall j :: 0 <= j < i ==> ForStoring(domains[j]) != ForStoring(domains[i])
    ensures StorableUpTo(domains, i + 1, isAllowWildcard)
  {
  }

  method ValidateDomainBeforeInsert(domains: seq<string>, isAllowWildcard: bool) returns (reason: Option<Reason>)
    ensures reason == None <==> Storable(domains, isAllowWildcard)
    ensures NotFromLateChecks(reason)
    ensures reason.Some? ==>
              exists i: nat :: i < |domains| && StorableUpTo(domains, i, isAllowWildcard)
                               && ReasonAt(domains, i, isAllowWildcard) == reason
  {
    hide Fault, Acceptable;
    var seen: set<string> := {};
    for i := 0 to |domains|
      invariant StorableUpTo(domains, i, isAllowWildcard)
      invariant forall d :: d in seen <==> exists j :: 0 <= j < i && ForStoring(domains[j]) == d
    {
      var domain := ForStoring(domains[i]);
      if domain == "" {
        EmptyIsUnacceptable(isAllowWildcard);
        NotStorable(domains, i, isAllowWildcard);
        return Some(NoDomainProvided);
      }
      if domain in seen {
        NotStorable(domains, i, isAllowWildcard);
        return Some(DuplicatesProvided);
      }
      seen := seen + {domain};
      var fault := CheckAcceptable(domain, isAllowWildcard);
      if fault.Some? {
        NotStorable(domains, i, isAllowWildcard);
        return fault;
      }
      StorableNext(domains, i, isAllowWildcard);
    }
    return None;
  }
}
