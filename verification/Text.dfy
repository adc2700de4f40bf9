/** The Python string operations the program relies on: strip, slicing and decimal rendering. */
module Text {

  /** str.isspace for one character. */
  predicate IsSpace(c: char) {
    var n := c as int;
    || 9 <= n <= 13 || 28 <= n <= 32 || n == 0x85 || n == 0xA0 || n == 0x1680
    || 0x2000 <= n <= 0x200A || n == 0x2028 || n == 0x2029 || n == 0x202F || n == 0x205F || n == 0x3000
  }

  function Lstrip(s: string): string {
    if s != "" && IsSpace(s[0]) then Lstrip(s[1..]) else s
  }

  function Rstrip(s: string): string {
    if s != "" && IsSpace(s[|s| - 1]) then Rstrip(s[..|s| - 1]) else s
  }

  function Strip(s: string): string { Rstrip(Lstrip(s)) }

  predicate Blank(s: string) { forall i :: 0 <= i < |s| ==> IsSpace(s[i]) }

  /** No white space at either end. */
  predicate Trimmed(s: string) { s == "" || (!IsSpace(s[0]) && !IsSpace(s[|s| - 1])) }

  lemma {:induction false} LstripSpec(s: string)
    ensures var r := Lstrip(s);
            |r| <= |s| && r == s[|s| - |r|..] && Blank(s[..|s| - |r|]) && (r == "" || !IsSpace(r[0]))
  {
    if s != "" && IsSpace(s[0]) {
      LstripSpec(s[1..]);
      var r := Lstrip(s);
      assert s[..|s| - |r|] == [s[0]] + s[1..][..|s[1..]| - |r|];
    }
  }

  lemma {:induction false} RstripSpec(s: string)
    ensures var r := Rstrip(s);
            |r| <= |s| && r == s[..|r|] && Blank(s[|r|..]) && (r == "" || !IsSpace(r[|r| - 1]))
  {
    if s != "" && IsSpace(s[|s| - 1]) {
      RstripSpec(s[..|s| - 1]);
      var r := Rstrip(s);
      assert s[|r|..] == s[..|s| - 1][|r|..] + [s[|s| - 1]];
    }
  }

  /** strip cuts a blank head and a blank tail, nothing else, and leaves no white space at either end. */
  lemma StripSpec(s: string)
    ensures var r := Strip(s);
            && |r| <= |s| && Trimmed(r) && (r == "" <==> Blank(s)) && (Trimmed(s) ==> r == s)
    ensures exists head: string, tail: string :: s == head + Strip(s) + tail && Blank(head) && Blank(tail)
  {
    var l := Lstrip(s);
    var r := Rstrip(l);
    LstripSpec(s);
    RstripSpec(l);
    var head, tail := s[..|s| - |l|], l[|r|..];
    assert s == head + r + tail;
    assert r != "" ==> r[0] == l[0] && s[|head|] == l[0];
  }

  /** s[:n] */
  function Prefix(s: string, n: nat): (r: string)
    ensures r <= s && |r| == if |s| <= n then |s| else n
  {
    if |s| <= n then s else s[..n]
  }

  // ---- Decimal rendering ------------------------------------------------------------------------

  predicate IsDigit(c: char) { '0' <= c <= '9' }

  /** str(n) */
  function Decimal(n: nat): (s: string)
    ensures s != "" && forall c :: c in s ==> IsDigit(c)
    ensures n < 10 <==> |s| == 1
  {
    var digit := ('0' as int + n % 10) as char;
    if n < 10 then [digit] else Decimal(n / 10) + [digit]
  }

  lemma {:induction false} DecimalInjective(a: nat, b: nat)
    requires Decimal(a) == Decimal(b)
    ensures a == b
  {
    var x, y := Decimal(a), Decimal(b);
    assert x[|x| - 1] == y[|y| - 1];
    if a >= 10 {
      assert x[..|x| - 1] == Decimal(a / 10) && y[..|y| - 1] == Decimal(b / 10);
      DecimalInjective(a / 10, b / 10);
    }
  }

  function Pow10(k: nat): nat { if k == 0 then 1 else 10 * Pow10(k - 1) }

  lemma {:induction false} DecimalLength(n: nat, k: nat)
    requires 1 <= k && n < Pow10(k)
    ensures |Decimal(n)| <= k
  {
    assert Pow10(1) == 10;
    if n >= 10 {
      DecimalLength(n / 10, k - 1);
    }
  }

  /** A separator that neither head contains splits a string one way only. */
  lemma SplitUnique(x: string, y: string, sep: char, u: string, v: string)
    requires sep !in x && sep !in y
    requires x + [sep] + u == y + [sep] + v
    ensures x == y && u == v
  {
    var s := x + [sep] + u;
    assert s[|x|] == sep && s[|y|] == sep;
    assert x == s[..|x|] && y == s[..|y|];
    assert forall k :: 0 <= k < |y| ==> s[k] == y[k];
    assert forall k :: 0 <= k < |x| ==> s[k] == x[k];
    assert u == s[|x| + 1..] && v == s[|y| + 1..];
  }
}
