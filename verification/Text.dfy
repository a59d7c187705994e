/**
  White space, texts with the white space taken out, and texts joined and cut apart.
 */
module Text {

  /** Python's `str.isspace`. */
  predicate IsSpace(c: char) {
    var n := c as int;
    9 <= n <= 13 || 28 <= n <= 32 || n == 133 || n == 160 || n == 5760 || 8192 <= n <= 8202
    || n == 8232 || n == 8233 || n == 8239 || n == 8287 || n == 12288
  }

  function StripLeft(s: string): string {
    if s != "" && IsSpace(s[0]) then StripLeft(s[1..]) else s
  }

  function StripRight(s: string): string {
    if s != "" && IsSpace(s[|s| - 1]) then StripRight(s[..|s| - 1]) else s
  }

  function Strip(s: string): string {
    StripRight(StripLeft(s))
  }

  /** The parts with `sep` between them. */
  function Join(sep: string, parts: seq<string>): string {
    if parts == [] then "" else if |parts| == 1 then parts[0] else parts[0] + sep + Join(sep, parts[1..])
  }

  predicate Free(c: char, s: string) {
    c !in s
  }

  /** Text up to a separator and text from it on determine each other. */
  lemma {:induction false} CutUnique(c: char, x: string, r: string, y: string, t: string)
    requires x + r == y + t && Free(c, x) && Free(c, y)
    requires (r == "" || r[0] == c) && (t == "" || t[0] == c)
    ensures x == y && r == t
  {
    assert r != "" ==> (x + r)[|x|] == c;
    assert t != "" ==> (y + t)[|y|] == c;
    assert x == (x + r)[..|x|] && y == (y + t)[..|y|];
    assert r == (x + r)[|x|..] && t == (y + t)[|y|..];
  }

  function Tail(c: char, parts: seq<string>): string
    requires parts != []
  {
    if |parts| == 1 then "" else [c] + Join([c], parts[1..])
  }

  lemma {:induction false} JoinCut(c: char, parts: seq<string>)
    requires parts != []
    ensures Join([c], parts) == parts[0] + Tail(c, parts)
  {
  }

  /** Joined parts can be told apart if they are free of the separator, except that no
      part at all and one empty part look the same. */
  lemma {:induction false} JoinInjective(c: char, a: seq<string>, b: seq<string>)
    requires Join([c], a) == Join([c], b) && (a == [] <==> b == [])
    requires forall i :: 0 <= i < |a| ==> Free(c, a[i])
    requires forall i :: 0 <= i < |b| ==> Free(c, b[i])
    ensures a == b
  {
    if a != [] {
      JoinCut(c, a);
      JoinCut(c, b);
      hide Join, Free;
      CutUnique(c, a[0], Tail(c, a), b[0], Tail(c, b));
      assert a == [a[0]] + a[1..] && b == [b[0]] + b[1..];
      if |a| > 1 && |b| > 1 {
        assert Join([c], a[1..]) == Tail(c, a)[1..] && Join([c], b[1..]) == Tail(c, b)[1..];
        JoinInjective(c, a[1..], b[1..]);
      }
    }
  }

  lemma {:induction false} JoinEmpty(c: char, a: seq<string>)
    requires a != []
    ensures Join([c], a) == "" <==> a == [""]
  {
    JoinCut(c, a);
  }

  /** Text up to the last separator and text after it determine each other. */
  lemma {:induction false} CutLast(c: char, x: string, r: string, y: string, t: string)
    requires x + [c] + r == y + [c] + t && Free(c, r) && Free(c, t)
    ensures x == y && r == t
  {
    var a, b := x + [c] + r, y + [c] + t;
    assert a[|x|] == c && b[|y|] == c;
    assert forall i :: |x| < i < |a| ==> a[i] == r[i - |x| - 1];
    assert forall i :: |y| < i < |b| ==> b[i] == t[i - |y| - 1];
    assert x == a[..|x|] && y == b[..|y|] && r == a[|x| + 1..] && t == b[|y| + 1..];
  }

  /** The text cut at every separator. */
  function SplitOn(c: char, s: string): (parts: seq<string>)
    ensures parts != []
  {
    if s == "" then [""]
    else
      var rest := SplitOn(c, s[1..]);
      if s[0] == c then [""] + rest else [[s[0]] + rest[0]] + rest[1..]
  }

  /** Cutting is the inverse of joining. */
  lemma {:induction false} JoinSplit(c: char, s: string)
    ensures Join([c], SplitOn(c, s)) == s && forall i :: 0 <= i < |SplitOn(c, s)| ==> Free(c, SplitOn(c, s)[i])
  {
    if s != "" {
      var rest, parts := SplitOn(c, s[1..]), SplitOn(c, s);
      JoinSplit(c, s[1..]);
      JoinCut(c, rest);
      JoinCut(c, parts);
      if s[0] == c {
        assert parts[1..] == rest;
      } else {
        assert parts[1..] == rest[1..] && Tail(c, parts) == Tail(c, rest);
      }
    }
  }

  lemma {:induction false} JoinFree(c: char, sep: string, parts: seq<string>)
    requires Free(c, sep) && forall i :: 0 <= i < |parts| ==> Free(c, parts[i])
    ensures Free(c, Join(sep, parts))
  {
    if |parts| > 1 { JoinFree(c, sep, parts[1..]); }
  }

  function Digit(n: nat): char
    requires n < 10
  {
    (48 + n) as char
  }

  function Decimal(n: nat): string {
    if n < 10 then [Digit(n)] else Decimal(n / 10) + [Digit(n % 10)]
  }

  lemma {:induction false} DecimalDigits(n: nat)
    ensures Decimal(n) != "" && forall i :: 0 <= i < |Decimal(n)| ==> 48 <= Decimal(n)[i] as int < 58
  {
    if n >= 10 { DecimalDigits(n / 10); }
  }

  lemma {:induction false} DecimalInjective(m: nat, n: nat)
    requires Decimal(m) == Decimal(n)
    ensures m == n
  {
    DecimalDigits(m / 10);
    DecimalDigits(n / 10);
    var a, b := Decimal(m), Decimal(n);
    assert a[|a| - 1] == Digit(m % 10) && b[|b| - 1] == Digit(n % 10);
    if m >= 10 && n >= 10 {
      assert a[..|a| - 1] == Decimal(m / 10) && b[..|b| - 1] == Decimal(n / 10);
      DecimalInjective(m / 10, n / 10);
    }
  }

  function Zeros(n: nat): (s: string)
    ensures |s| == n && forall i :: 0 <= i < n ==> s[i] == '0'
  {
    if n == 0 then "" else Zeros(n - 1) + "0"
  }

  /** The number in at least `width` digits. */
  function Padded(n: nat, width: nat): string {
    var d := Decimal(n);
    if |d| < width then Zeros(width - |d|) + d else d
  }

  lemma {:induction false} PaddedDigits(n: nat, width: nat)
    ensures Padded(n, width) != "" && forall i :: 0 <= i < |Padded(n, width)| ==> 48 <= Padded(n, width)[i] as int < 58
  {
    DecimalDigits(n);
  }

  /** The number a text of digits stands for. */
  ghost function Value(s: string): int {
    if s == "" then 0 else 10 * Value(s[..|s| - 1]) + (s[|s| - 1] as int - 48)
  }

  lemma {:induction false} ValueDecimal(n: nat)
    ensures Value(Decimal(n)) == n
  {
    var d := Decimal(n);
    if n >= 10 {
      ValueDecimal(n / 10);
      assert d[..|d| - 1] == Decimal(n / 10);
    } else {
      assert d[..0] == "";
    }
  }

  lemma {:induction false} ValueZeros(k: nat, s: string)
    ensures Value(Zeros(k) + s) == Value(s)
  {
    if s != "" {
      var t := Zeros(k) + s;
      assert t[..|t| - 1] == Zeros(k) + s[..|s| - 1];
      ValueZeros(k, s[..|s| - 1]);
    } else if k > 0 {
      assert Zeros(k) + s == Zeros(k) && Zeros(k)[..k - 1] == Zeros(k - 1) + "";
      ValueZeros(k - 1, "");
    } else {
      assert Zeros(0) + s == s;
    }
  }

  /** Padding never makes two numbers look alike. */
  lemma {:induction false} PaddedInjective(m: nat, n: nat, width: nat)
    requires Padded(m, width) == Padded(n, width)
    ensures m == n
  {
    PaddedValue(m, width);
    PaddedValue(n, width);
  }

  lemma {:induction false} PaddedValue(n: nat, width: nat)
    ensures Value(Padded(n, width)) == n
  {
    ValueDecimal(n);
    var d := Decimal(n);
    if |d| < width { ValueZeros(width - |d|, d); }
  }

  /** The text without its white space. */
  function Erase(s: string): string {
    if s == "" then "" else Erase(s[..|s| - 1]) + if IsSpace(s[|s| - 1]) then "" else [s[|s| - 1]]
  }

  lemma {:induction false} EraseJoin(a: string, b: string)
    ensures Erase(a + b) == Erase(a) + Erase(b)
  {
    if b == "" {
      assert a + b == a;
    } else {
      assert (a + b)[..|a + b| - 1] == a + b[..|b| - 1];
      EraseJoin(a, b[..|b| - 1]);
    }
  }

  lemma {:induction false} EraseStripLeft(s: string)
    ensures Erase(StripLeft(s)) == Erase(s) && |StripLeft(s)| <= |s|
  {
    if s != "" && IsSpace(s[0]) {
      EraseStripLeft(s[1..]);
      EraseJoin([s[0]], s[1..]);
      assert s == [s[0]] + s[1..] && [s[0]][..0] == "" && Erase([s[0]]) == "";
    }
  }

  lemma {:induction false} EraseStripRight(s: string)
    ensures Erase(StripRight(s)) == Erase(s) && |StripRight(s)| <= |s|
  {
    if s != "" && IsSpace(s[|s| - 1]) { EraseStripRight(s[..|s| - 1]); }
  }

  /** Stripping never lengthens a text and takes out nothing but white space. */
  lemma {:induction false} EraseStrip(s: string)
    ensures Erase(Strip(s)) == Erase(s) && |Strip(s)| <= |s|
  {
    EraseStripLeft(s);
    EraseStripRight(StripLeft(s));
  }

  lemma {:induction false} EraseEmpty()
    ensures Erase("") == ""
  {
  }

  /** What is left of a text after stripping, if anything, can be seen. */
  lemma {:induction false} StripVisible(s: string)
    ensures Strip(s) == "" <==> Erase(s) == ""
  {
    EraseStrip(s);
    RightVisible(StripLeft(s));
    EraseEmpty();
  }

  lemma {:induction false} RightVisible(s: string)
    ensures StripRight(s) != "" ==> Erase(StripRight(s)) != ""
  {
    if s != "" && IsSpace(s[|s| - 1]) { RightVisible(s[..|s| - 1]); }
  }

  /** Stripping cuts a stretch out of the text. */
  lemma {:induction false} StripIsSlice(s: string) returns (lo: nat, hi: nat)
    ensures lo <= hi <= |s| && Strip(s) == s[lo..hi]
  {
    lo := LeftSlice(s);
    var n := RightSlice(StripLeft(s));
    hi := lo + n;
  }

  lemma {:induction false} LeftSlice(s: string) returns (lo: nat)
    ensures lo <= |s| && StripLeft(s) == s[lo..]
  {
    if s != "" && IsSpace(s[0]) {
      lo := LeftSlice(s[1..]);
      lo := lo + 1;
    } else {
      lo := 0;
    }
  }

  lemma {:induction false} RightSlice(s: string) returns (n: nat)
    ensures n <= |s| && StripRight(s) == s[..n]
  {
    if s != "" && IsSpace(s[|s| - 1]) {
      n := RightSlice(s[..|s| - 1]);
    } else {
      n := |s|;
      assert s[..n] == s;
    }
  }

  // ---- what stripping and joining mean ------------------------------------

  predicate Blank(s: string) {
    forall i :: 0 <= i < |s| ==> IsSpace(s[i])
  }

  /** No white space at either end. */
  predicate Bare(t: string) {
    t == "" || (!IsSpace(t[0]) && !IsSpace(t[|t| - 1]))
  }

  /** `t` is what is left of `s` between the white space at its ends. */
  ghost predicate Within(s: string, a: string, t: string, b: string) {
    s == a + t + b && Blank(a) && Blank(b) && Bare(t)
  }

  ghost predicate StripsTo(s: string, t: string) {
    exists a, b :: Within(s, a, t, b)
  }

  lemma {:induction false} LeftSplits(s: string) returns (a: string)
    ensures s == a + StripLeft(s) && Blank(a) && (StripLeft(s) != "" ==> !IsSpace(StripLeft(s)[0]))
  {
    hide IsSpace;
    if s != "" && IsSpace(s[0]) {
      a := LeftSplits(s[1..]);
      a := [s[0]] + a;
    } else {
      a := "";
    }
  }

  lemma {:induction false} RightSplits(s: string) returns (b: string)
    ensures s == StripRight(s) + b && Blank(b) && (StripRight(s) != "" ==> !IsSpace(StripRight(s)[|StripRight(s)| - 1]))
  {
    hide IsSpace;
    if s != "" && IsSpace(s[|s| - 1]) {
      b := RightSplits(s[..|s| - 1]);
      b := b + [s[|s| - 1]];
      assert s == s[..|s| - 1] + [s[|s| - 1]];
    } else {
      b := "";
    }
  }

  lemma {:induction false} LeftGone(a: string, s: string)
    requires Blank(a)
    ensures StripLeft(a + s) == StripLeft(s)
  {
    hide IsSpace;
    if a == "" {
      assert a + s == s;
    } else {
      assert (a + s)[1..] == a[1..] + s;
      LeftGone(a[1..], s);
    }
  }

  lemma {:induction false} RightGone(s: string, b: string)
    requires Blank(b)
    ensures StripRight(s + b) == StripRight(s)
  {
    hide IsSpace;
    if b == "" {
      assert s + b == s;
    } else {
      assert (s + b)[..|s + b| - 1] == s + b[..|b| - 1];
      RightGone(s, b[..|b| - 1]);
    }
  }

  /** Stripping gives the one text without white space at its ends that white space
      around it makes into `s`. */
  lemma {:induction false} StripIff(s: string, t: string)
    ensures t == Strip(s) <==> StripsTo(s, t)
  {
    hide IsSpace;
    var a := LeftSplits(s);
    var b := RightSplits(StripLeft(s));
    assert Within(s, a, Strip(s), b) by {
      assert s == a + Strip(s) + b;
      assert Strip(s) != "" ==> Strip(s)[0] == StripLeft(s)[0];
    }
    if x, y :| Within(s, x, t, y) { StripFrom(x, t, y); }
  }

  lemma {:induction false} StripFrom(a: string, t: string, b: string)
    requires Blank(a) && Blank(b) && Bare(t)
    ensures Strip(a + t + b) == t
  {
    hide IsSpace;
    assert a + t + b == a + (t + b);
    LeftGone(a, t + b);
    if t == "" {
      assert t + b == b && b + "" == b;
      LeftGone(b, "");
    } else {
      assert StripLeft(t + b) == t + b;
      RightGone(t, b);
    }
  }

  /** Joining two lists with a separator between them is joining them all. */
  lemma {:induction false} JoinConcat(sep: string, a: seq<string>, b: seq<string>)
    requires a != [] && b != []
    ensures Join(sep, a + b) == Join(sep, a) + sep + Join(sep, b)
    ensures Join(sep, []) == "" && Join(sep, [a[0]]) == a[0]
  {
    assert (a + b)[1..] == a[1..] + b;
    if |a| > 1 {
      JoinConcat(sep, a[1..], b);
      assert a[0] + sep + (Join(sep, a[1..]) + sep + Join(sep, b)) == a[0] + sep + Join(sep, a[1..]) + sep + Join(sep, b);
    } else {
      assert a[1..] + b == b;
    }
  }

  /** Digits that stand for `n`, without a zero in front. */
  ghost predicate IsDecimal(s: string, n: nat) {
    && s != "" && (forall i :: 0 <= i < |s| ==> '0' <= s[i] <= '9')
    && Value(s) == n && (s[0] == '0' ==> s == "0")
  }

  lemma {:induction false} DecimalIs(n: nat)
    ensures IsDecimal(Decimal(n), n)
  {
    DecimalDigits(n);
    ValueDecimal(n);
    DecimalFront(n);
  }

  lemma {:induction false} DecimalFront(n: nat)
    ensures Decimal(n) != "" && (Decimal(n)[0] == '0' <==> n == 0) && (n < 10 ==> |Decimal(n)| == 1)
  {
    if n >= 10 { DecimalFront(n / 10); }
  }

  /** Padding writes the number in `width` digits, or as it is if it has more. */
  lemma {:induction false} PaddedIs(n: nat, width: nat)
    ensures var p := Padded(n, width);
      && (forall i :: 0 <= i < |p| ==> '0' <= p[i] <= '9') && Value(p) == n
      && |p| >= width && (|p| > width ==> IsDecimal(p, n))
  {
    PaddedDigits(n, width);
    PaddedValue(n, width);
    DecimalIs(n);
  }
}
