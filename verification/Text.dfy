/** Decimal numbers and separator-joined fields, as Python's `str`, `int` and f-strings write them. */
module Text {
  function Digit(d: nat): char
    requires d < 10
  {
    "0123456789"[d]
  }

  function ShowNat(n: nat): (s: string)
    ensures s != []
    decreases n
  {
    if n < 10 then [Digit(n)] else ShowNat(n / 10) + [Digit(n % 10)]
  }

  function Show(n: int): string {
    if n < 0 then "-" + ShowNat(-n) else ShowNat(n)
  }

  predicate IsDigit(c: char) {
    '0' <= c <= '9'
  }

  /** `"|".join(parts)` */
  ghost function JoinBars(parts: seq<string>): string {
    if parts == [] then "" else if |parts| == 1 then parts[0] else parts[0] + "|" + JoinBars(parts[1..])
  }

  lemma JoinBarsFour(a: string, b: string, c: string, d: string)
    ensures JoinBars([a, b, c, d]) == a + "|" + (b + "|" + (c + "|" + d))
  {
    assert [a, b, c, d][1..] == [b, c, d] && [b, c, d][1..] == [c, d] && [c, d][1..] == [d];
    assert JoinBars([c, d]) == c + "|" + JoinBars([d]);
    assert JoinBars([b, c, d]) == b + "|" + JoinBars([c, d]);
  }

  lemma {:induction false} JoinBarsAdd(front: seq<string>, rest: seq<string>)
    requires front != [] && rest != []
    ensures JoinBars(front + rest) == JoinBars(front) + "|" + JoinBars(rest)
    decreases |front|
  {
    if |front| == 1 {
      assert (front + rest)[1..] == rest;
    } else {
      JoinBarsAdd(front[1..], rest);
      assert (front + rest)[1..] == front[1..] + rest && (front + rest)[0] == front[0];
    }
  }

  /** What `strip` and `int` take for white space, among the ASCII characters. */
  predicate IsSpace(c: char)
    ensures IsSpace(c) <==> c as int in {9, 10, 11, 12, 13, 28, 29, 30, 31, 32}
  {
    c == ' ' || '\t' <= c <= '\r' || '\U{1C}' <= c <= '\U{1F}'
  }

  predicate AllDigits(s: string) {
    forall i | 0 <= i < |s| :: IsDigit(s[i])
  }

  function ReadDigits(s: string): nat
    requires AllDigits(s)
  {
    if s == [] then 0 else 10 * ReadDigits(s[..|s| - 1]) + (s[|s| - 1] - '0') as nat
  }

  lemma {:induction false} ShowNatReads(n: nat)
    ensures AllDigits(ShowNat(n)) && ReadDigits(ShowNat(n)) == n
    decreases n
  {
    if n >= 10 {
      ShowNatReads(n / 10);
      var s := ShowNat(n);
      assert s[..|s| - 1] == ShowNat(n / 10);
    } else {
      assert ShowNat(n)[..0] == [];
    }
  }

  lemma ShowInjective(m: int, n: int)
    requires Show(m) == Show(n)
    ensures m == n
  {
    ShowNatReads(if m < 0 then -m else m);
    ShowNatReads(if n < 0 then -n else n);
    assert m >= 0 ==> IsDigit(Show(m)[0]);
    assert n >= 0 ==> IsDigit(Show(n)[0]);
    if m < 0 && n < 0 {
      assert Show(m)[1..] == ShowNat(-m) && Show(n)[1..] == ShowNat(-n);
    }
  }

  lemma ShowHasNo(n: int, c: char)
    requires c != '-' && !IsDigit(c)
    ensures c !in Show(n)
  {
    ShowNatReads(if n < 0 then -n else n);
  }

  /** Two texts that agree up to a separator neither prefix contains have the same prefix and rest. */
  lemma {:induction false} SplitAtFirst(a: string, x: string, b: string, y: string, c: char)
    requires c !in a && c !in b && a + [c] + x == b + [c] + y
    ensures a == b && x == y
  {
    var s := a + [c] + x;
    assert s == b + [c] + y;
    assert s[|a|] == c && s[|b|] == c;
    assert forall i | 0 <= i < |a| :: s[i] == a[i];
    assert forall i | 0 <= i < |b| :: s[i] == b[i];
    assert |a| == |b|;
    assert a == s[..|a|] == b;
    assert x == s[|a| + 1..] == y;
  }

  /** The same from the right: the last separator splits both alike. */
  lemma {:induction false} SplitAtLast(x: string, a: string, y: string, b: string, c: char)
    requires c !in a && c !in b && x + [c] + a == y + [c] + b
    ensures x == y && a == b
  {
    var s := x + [c] + a;
    assert s == y + [c] + b;
    assert s[|x|] == c && s[|y|] == c;
    assert forall i | |x| < i < |s| :: s[i] == a[i - |x| - 1];
    assert forall i | |y| < i < |s| :: s[i] == b[i - |y| - 1];
    assert |x| == |y|;
    assert x == s[..|x|] == y;
    assert a == s[|x| + 1..] == b;
  }

  /** How many bars a text holds. */
  function Bars(s: string): nat {
    if s == [] then 0 else (if s[0] == '|' then 1 else 0) + Bars(s[1..])
  }

  lemma {:induction false} BarsAdd(a: string, b: string)
    ensures Bars(a + b) == Bars(a) + Bars(b)
    decreases |a|
  {
    if a == [] {
      assert a + b == b;
    } else {
      assert (a + b)[1..] == a[1..] + b;
      BarsAdd(a[1..], b);
    }
  }

  lemma {:induction false} BarsZero(s: string)
    ensures Bars(s) == 0 <==> '|' !in s
  {
    if s != [] {
      BarsZero(s[1..]);
      assert s == [s[0]] + s[1..];
    }
  }

  lemma BarsInJoin(a: string, rest: string)
    ensures Bars(a + "|" + rest) == Bars(a) + 1 + Bars(rest)
  {
    BarsAdd(a + "|", rest);
    BarsAdd(a, "|");
    assert Bars("|") == 1 by {
      assert "|"[1..] == [];
    }
  }

  /** A bar splits the text that holds it. */
  lemma BarSplits(s: string) returns (x: string, y: string)
    requires '|' in s
    ensures s == x + "|" + y
  {
    var i :| 0 <= i < |s| && s[i] == '|';
    x, y := s[..i], s[i + 1..];
  }

  lemma BarsAssociate(x: string, y: string, z: string)
    ensures x + "|" + y + "|" + z == x + "|" + (y + "|" + z)
  {
  }
}
