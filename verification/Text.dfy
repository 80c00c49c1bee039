/** The string operations of JavaScript that the models use, on ASCII text. */
module Text {
  import opened Wrappers

  predicate IsSpace(c: char) {
    c == ' ' || '\t' <= c <= '\r'
  }

  predicate IsDigit(c: char) {
    '0' <= c <= '9'
  }

  function LowerChar(c: char): char {
    if 'A' <= c <= 'Z' then c + ('a' - 'A') else c
  }

  function Lower(s: string): (r: string)
    ensures |r| == |s|
  {
    seq(|s|, i requires 0 <= i < |s| => LowerChar(s[i]))
  }

  function TrimLeft(s: string): string {
    if s != [] && IsSpace(s[0]) then TrimLeft(s[1..]) else s
  }

  function TrimRight(s: string): string {
    if s != [] && IsSpace(s[|s| - 1]) then TrimRight(s[..|s| - 1]) else s
  }

  function Trim(s: string): string {
    TrimRight(TrimLeft(s))
  }

  predicate EndsWith(s: string, suffix: string) {
    |suffix| <= |s| && s[|s| - |suffix|..] == suffix
  }

  /** Blank, tab, line feed, vertical tab, form feed and carriage return. */
  lemma SpacesAre(c: char)
    ensures IsSpace(c) <==> c as int in {32, 9, 10, 11, 12, 13}
  {
  }

  /** The same character but for the case of a letter. */
  predicate SameButCase(c: char, d: char) {
    c == d || ('A' <= c <= 'Z' && d as int == c as int + 32) || ('A' <= d <= 'Z' && c as int == d as int + 32)
  }

  /** The same text but for the case of its letters. */
  predicate SameText(a: string, b: string) {
    |a| == |b| && forall i :: 0 <= i < |a| ==> SameButCase(a[i], b[i])
  }

  predicate AllSpace(s: string) {
    forall c :: c in s ==> IsSpace(c)
  }

  predicate NoOuterSpace(s: string) {
    s == "" || (!IsSpace(s[0]) && !IsSpace(s[|s| - 1]))
  }

  predicate NoUpperCase(s: string) {
    forall c :: c in s ==> !('A' <= c <= 'Z')
  }

  lemma LowerSame(a: string, b: string)
    requires SameText(a, b)
    ensures Lower(a) == Lower(b)
  {
    assert forall i :: 0 <= i < |a| ==> Lower(a)[i] == Lower(b)[i];
  }

  lemma LowerKeeps(s: string)
    ensures SameText(s, Lower(s)) && NoUpperCase(Lower(s))
    ensures NoUpperCase(s) ==> Lower(s) == s
    ensures NoOuterSpace(Lower(s)) <==> NoOuterSpace(s)
  {
    forall c | c in Lower(s) ensures !('A' <= c <= 'Z') {
      var i :| 0 <= i < |s| && Lower(s)[i] == c;
    }
    if NoUpperCase(s) {
      forall i | 0 <= i < |s| ensures Lower(s)[i] == s[i] { assert s[i] in s; }
    }
  }

  lemma LowerJoins(a: string, b: string)
    ensures Lower(a + b) == Lower(a) + Lower(b)
  {
    assert forall i :: 0 <= i < |a + b| ==> Lower(a + b)[i] == (Lower(a) + Lower(b))[i];
  }

  lemma LowerSpace(s: string)
    requires AllSpace(s)
    ensures Lower(s) == s
  {
    forall i | 0 <= i < |s| ensures Lower(s)[i] == s[i] { assert s[i] in s; }
  }

  lemma {:induction false} TrimLeftPadded(front: string, s: string)
    requires AllSpace(front)
    ensures TrimLeft(front + s) == TrimLeft(s)
  {
    if front == [] {
      assert front + s == s;
    } else {
      assert front[0] in front && (front + s)[1..] == front[1..] + s;
      TrimLeftPadded(front[1..], s);
    }
  }

  lemma {:induction false} TrimRightPadded(s: string, back: string)
    requires AllSpace(back)
    ensures TrimRight(s + back) == TrimRight(s)
  {
    if back == [] {
      assert s + back == s;
    } else {
      var n := |back| - 1;
      assert back[n] in back && (s + back)[..|s + back| - 1] == s + back[..n];
      TrimRightPadded(s, back[..n]);
    }
  }

  /** Trimming finds the core between outer white space. */
  lemma TrimFinds(front: string, core: string, back: string)
    requires AllSpace(front) && AllSpace(back) && NoOuterSpace(core)
    ensures Trim(front + core + back) == core
  {
    assert front + core + back == front + (core + back);
    TrimLeftPadded(front, core + back);
    if core == "" {
      assert core + back == back + "";
      TrimLeftPadded(back, "");
    } else {
      assert TrimLeft(core + back) == core + back;
      TrimRightPadded(core, back);
    }
  }

  /** Every text has such a core. */
  lemma {:induction false} CoreExists(s: string) returns (front: string, core: string, back: string)
    ensures s == front + core + back && AllSpace(front) && AllSpace(back) && NoOuterSpace(core)
  {
    if s != [] && IsSpace(s[0]) {
      front, core, back := CoreExists(s[1..]);
      assert s == [s[0]] + s[1..];
      assert s == ([s[0]] + front) + core + back;
      front := [s[0]] + front;
    } else if s != [] && IsSpace(s[|s| - 1]) {
      var n := |s| - 1;
      front, core, back := CoreExists(s[..n]);
      assert s == s[..n] + [s[n]];
      assert s == front + core + (back + [s[n]]);
      back := back + [s[n]];
    } else {
      front, core, back := "", s, "";
      assert s == "" + s + "";
    }
  }

  // ----- parseInt with radix 10; None is NaN

  function Digit(c: char): int {
    c as int - '0' as int
  }

  function DigitsValue(s: string, acc: int): int {
    if s != [] && IsDigit(s[0]) then DigitsValue(s[1..], 10 * acc + Digit(s[0])) else acc
  }

  function ParseInt(s: string): Option<int> {
    var t := TrimLeft(s);
    var negative := t != [] && t[0] == '-';
    var u := if t != [] && (t[0] == '-' || t[0] == '+') then t[1..] else t;
    if u != [] && IsDigit(u[0]) then Some(if negative then -DigitsValue(u, 0) else DigitsValue(u, 0)) else None
  }

  // ----- decimal notation

  function DigitChar(d: nat): (c: char)
    requires d < 10
    ensures IsDigit(c) && Digit(c) == d
  {
    '0' + d as char
  }

  function Decimal(n: nat): (s: string)
    ensures s != [] && forall c :: c in s ==> IsDigit(c)
  {
    if n < 10 then [DigitChar(n)] else Decimal(n / 10) + [DigitChar(n % 10)]
  }

  lemma {:induction false} DigitsAppend(s: string, c: char, acc: int)
    requires (forall d :: d in s ==> IsDigit(d)) && IsDigit(c)
    ensures DigitsValue(s + [c], acc) == 10 * DigitsValue(s, acc) + Digit(c)
  {
    if s == [] {
      assert s + [c] == [c] && [c][1..] == [];
    } else {
      assert (s + [c])[1..] == s[1..] + [c];
      DigitsAppend(s[1..], c, 10 * acc + Digit(s[0]));
    }
  }

  lemma {:induction false} DigitsOfDecimal(n: nat)
    ensures DigitsValue(Decimal(n), 0) == n
  {
    if n < 10 {
      assert Decimal(n)[1..] == [];
    } else {
      DigitsOfDecimal(n / 10);
      DigitsAppend(Decimal(n / 10), DigitChar(n % 10), 0);
    }
  }

  /** Reading a number back. */
  lemma ParseDecimal(n: nat)
    ensures ParseInt(Decimal(n)) == Some(n)
  {
    var s := Decimal(n);
    assert s[0] in s;
    DigitsOfDecimal(n);
  }

  lemma DecimalInjective(m: nat, n: nat)
    requires Decimal(m) == Decimal(n)
    ensures m == n
  {
    DigitsOfDecimal(m);
    DigitsOfDecimal(n);
  }

  // ----- split and join

  function Split(s: string, sep: char): (r: seq<string>)
    ensures |r| >= 1
  {
    if s == [] then [""] else Prepend(s[0], sep, Split(s[1..], sep))
  }

  function Join(parts: seq<string>, sep: char): string {
    if parts == [] then ""
    else if |parts| == 1 then parts[0]
    else parts[0] + [sep] + Join(parts[1..], sep)
  }

  lemma SplitFree(s: string, sep: char)
    requires sep !in s
    ensures Split(s, sep) == [s]
  {
    if s != [] {
      assert s[0] in s;
      SplitFree(s[1..], sep);
      assert [s[0]] + s[1..] == s;
    }
  }

  /** What the first character adds to the split of the rest. */
  function Prepend(c: char, sep: char, rest: seq<string>): seq<string>
    requires rest != []
  {
    if c == sep then [""] + rest else [[c] + rest[0]] + rest[1..]
  }

  lemma PrependAppend(c: char, sep: char, rest: seq<string>, tail: seq<string>)
    requires rest != []
    ensures Prepend(c, sep, rest + tail) == Prepend(c, sep, rest) + tail
  {
  }

  lemma {:induction false} SplitAt(a: string, b: string, sep: char)
    ensures Split(a + [sep] + b, sep) == Split(a, sep) + Split(b, sep)
  {
    var s := a + [sep] + b;
    if a == [] {
      assert s == [sep] + b && s[1..] == b;
    } else {
      assert s[0] == a[0] && s[1..] == a[1..] + [sep] + b;
      SplitAt(a[1..], b, sep);
      PrependAppend(a[0], sep, Split(a[1..], sep), Split(b, sep));
      assert Split(s, sep) == Prepend(s[0], sep, Split(s[1..], sep));
      assert Split(a, sep) == Prepend(a[0], sep, Split(a[1..], sep));
    }
  }

  lemma JoinSplit(s: string, sep: char)
    ensures Join(Split(s, sep), sep) == s
  {
    if s != [] {
      JoinSplit(s[1..], sep);
      var rest := Split(s[1..], sep);
      if s[0] == sep {
        assert ([""] + rest)[1..] == rest;
      } else if |rest| > 1 {
        assert ([[s[0]] + rest[0]] + rest[1..])[1..] == rest[1..];
      }
    }
  }

  lemma {:induction false} PartsHoldNoSeparator(s: string, sep: char)
    ensures forall p :: p in Split(s, sep) ==> sep !in p
  {
    if s != [] {
      PartsHoldNoSeparator(s[1..], sep);
      var rest := Split(s[1..], sep);
      assert rest[0] in rest;
    }
  }

  lemma SplitTwice(s: string, sep: char)
    requires sep in s
    ensures |Split(s, sep)| >= 2
  {
  }

  lemma JoinAppend(a: seq<string>, b: seq<string>, sep: char)
    requires a != [] && b != []
    ensures Join(a + b, sep) == Join(a, sep) + [sep] + Join(b, sep)
  {
    if |a| == 1 {
      assert (a + b)[1..] == b;
    } else {
      assert (a + b)[1..] == a[1..] + b;
      JoinAppend(a[1..], b, sep);
    }
  }

  lemma SplitJoin(parts: seq<string>, sep: char)
    requires parts != [] && forall p :: p in parts ==> sep !in p
    ensures Split(Join(parts, sep), sep) == parts
  {
    SplitFree(parts[0], sep);
    if |parts| > 1 {
      SplitJoin(parts[1..], sep);
      SplitAt(parts[0], Join(parts[1..], sep), sep);
      assert parts == [parts[0]] + parts[1..];
      hide Split;
    }
  }

  /** What no part holds the joined text does not hold. */
  lemma {:induction false} JoinHolds(parts: seq<string>, sep: char, c: char)
    requires c != sep && forall p :: p in parts ==> c !in p
    ensures c !in Join(parts, sep)
  {
    if |parts| > 1 {
      JoinHolds(parts[1..], sep, c);
    }
  }

  // ----- words: trim, then split on runs of white space

  /** The leading run without white space. */
  function FirstWord(s: string): string {
    if s == [] || IsSpace(s[0]) then "" else [s[0]] + FirstWord(s[1..])
  }

  lemma FirstWordShort(s: string)
    ensures FirstWord(s) <= s
    ensures s != [] && !IsSpace(s[0]) ==> FirstWord(s) != []
  {
  }

  function Words(s: string): seq<string>
    decreases |s|
  {
    if s == [] then []
    else if IsSpace(s[0]) then Words(s[1..])
    else
      FirstWordShort(s);
      [FirstWord(s)] + Words(s[|FirstWord(s)|..])
  }

  predicate IsWord(w: string) {
    w != [] && forall c :: c in w ==> !IsSpace(c)
  }

  lemma FirstWordOf(w: string, rest: string)
    requires forall c :: c in w ==> !IsSpace(c)
    requires rest == [] || IsSpace(rest[0])
    ensures FirstWord(w + rest) == w
  {
    if w == [] {
      assert w + rest == rest;
    } else {
      assert w[0] in w;
      assert (w + rest)[1..] == w[1..] + rest;
      FirstWordOf(w[1..], rest);
    }
  }

  lemma WordsCons(w: string, rest: string)
    requires IsWord(w)
    ensures Words(w + " " + rest) == [w] + Words(rest)
  {
    var s := w + " " + rest;
    assert w[0] in w && s[0] == w[0];
    assert s == w + (" " + rest);
    FirstWordOf(w, " " + rest);
    assert s[|w|..] == " " + rest;
    assert (" " + rest)[1..] == rest;
  }

  lemma WordsOne(w: string)
    requires IsWord(w)
    ensures Words(w) == [w]
  {
    assert w[0] in w;
    assert w == w + "";
    FirstWordOf(w, "");
    assert w[|w|..] == "";
  }
}
