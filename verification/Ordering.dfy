/** Python's order of strings, by code point, and sorted() over a set of them. */
module Ordering {

  predicate Less(a: string, b: string) {
    b != "" && (a == "" || a[0] < b[0] || (a[0] == b[0] && Less(a[1..], b[1..])))
  }

  lemma {:induction false} LessTotal(a: string, b: string)
    ensures Less(a, b) || Less(b, a) || a == b
    ensures !(Less(a, b) && Less(b, a)) && (a == b ==> !Less(a, b))
  {
    if a != "" && b != "" {
      LessTotal(a[1..], b[1..]);
      assert a == [a[0]] + a[1..] && b == [b[0]] + b[1..];
    }
  }

  lemma {:induction false} LessTransitive(a: string, b: string, c: string)
    requires Less(a, b) && Less(b, c)
    ensures Less(a, c)
  {
    if a != "" {
      if a[0] == b[0] && b[0] == c[0] {
        LessTransitive(a[1..], b[1..], c[1..]);
      }
    }
  }

  predicate Ascending(names: seq<string>) { forall i, j :: 0 <= i < j < |names| ==> Less(names[i], names[j]) }

  /** The least name of a non-empty set. */
  method Least(names: set<string>) returns (least: string)
    requires names != {}
    ensures least in names && forall x :: x in names ==> x == least || Less(least, x)
  {
    hide Less;
    least :| least in names;
    var left := names - {least};
    while left != {}
      invariant least in names && left <= names
      invariant forall x :: x in names && x !in left ==> x == least || Less(least, x)
      decreases left
    {
      var name :| name in left;
      LessTotal(name, least);
      if Less(name, least) {
        forall x | x in names && x !in left && x != least ensures Less(name, x) {
          LessTransitive(name, least, x);
        }
        least := name;
      }
      left := left - {name};
    }
  }

  /** sorted(names) */
  method Sort(names: set<string>) returns (sorted: seq<string>)
    ensures Ascending(sorted) && forall x :: x in names <==> x in sorted
    ensures sorted == Sorted(names)
  {
    hide Less;
    sorted := [];
    var left := names;
    while left != {}
      invariant left <= names && Ascending(sorted)
      invariant forall x :: x in names <==> x in sorted || x in left
      invariant forall i, x :: 0 <= i < |sorted| && x in left ==> Less(sorted[i], x)
      decreases left
    {
      var least := Least(left);
      sorted := sorted + [least];
      left := left - {least};
    }
    SortUnique(sorted, Sorted(names));
  }

  lemma LeastExists(names: set<string>) returns (least: string)
    requires names != {}
    ensures least in names && forall x :: x in names ==> x == least || Less(least, x)
  {
    hide Less;
    var y :| y in names;
    least := y;
    if names != {y} {
      assert names == (names - {y}) + {y};
      var z := LeastExists(names - {y});
      LessTotal(y, z);
      if Less(z, y) {
        least := z;
      } else {
        forall x | x in names && x != y && x != z ensures Less(y, x) {
          LessTransitive(y, z, x);
        }
      }
    }
  }

  lemma SortExists(names: set<string>) returns (sorted: seq<string>)
    ensures Ascending(sorted) && forall x :: x in names <==> x in sorted
  {
    hide Less;
    sorted := [];
    if names != {} {
      var least := LeastExists(names);
      var rest := SortExists(names - {least});
      sorted := [least] + rest;
      assert forall x :: x in sorted <==> x == least || x in rest;
    }
  }

  /** The names of a set in order. */
  ghost function Sorted(names: set<string>): (r: seq<string>)
    ensures Ascending(r) && forall x :: x in names <==> x in r
  {
    assert exists r :: Ascending(r) && forall x :: x in names <==> x in r by {
      var r := SortExists(names);
    }
    var r :| Ascending(r) && forall x :: x in names <==> x in r;
    r
  }

  lemma LastIsGreatest(a: seq<string>, x: string)
    requires Ascending(a) && a != [] && x in a
    ensures (x == a[|a| - 1] || Less(x, a[|a| - 1])) && (x in a[..|a| - 1] <==> x != a[|a| - 1])
  {
    hide Less;
    var i :| 0 <= i < |a| && a[i] == x;
    forall j | 0 <= j < |a| - 1 ensures a[j] != a[|a| - 1] {
      LessTotal(a[j], a[|a| - 1]);
    }
    assert i < |a| - 1 ==> a[..|a| - 1][i] == x;
  }

  lemma AscendingFront(a: seq<string>)
    requires Ascending(a) && a != []
    ensures Ascending(a[..|a| - 1])
  {
    hide Less;
  }

  lemma SameFront(a: seq<string>, b: seq<string>)
    requires Ascending(a) && Ascending(b) && (forall x :: x in a <==> x in b) && a != [] && b != []
    requires a[|a| - 1] == b[|b| - 1]
    ensures var front, rest := a[..|a| - 1], b[..|b| - 1]; forall z :: z in front <==> z in rest
  {
    hide Less, Ascending;
    var front, rest := a[..|a| - 1], b[..|b| - 1];
    assert a == front + [a[|a| - 1]] && b == rest + [b[|b| - 1]];
    forall z ensures z in front <==> z in rest {
      if z in a {
        LastIsGreatest(a, z);
        LastIsGreatest(b, z);
      }
    }
  }

  /** There is one way to sort a set. */
  lemma {:induction false} SortUnique(a: seq<string>, b: seq<string>)
    requires Ascending(a) && Ascending(b) && forall x :: x in a <==> x in b
    ensures a == b
  {
    hide Less;
    hide Ascending;
    assert a != [] ==> a[0] in b;
    assert b != [] ==> b[0] in a;
    if a != [] {
      var x, y := a[|a| - 1], b[|b| - 1];
      var front, rest := a[..|a| - 1], b[..|b| - 1];
      assert a == front + [x] && b == rest + [y];
      assert x in b && y in a;
      LastIsGreatest(a, y);
      LastIsGreatest(b, x);
      LessTotal(x, y);
      SameFront(a, b);
      AscendingFront(a);
      AscendingFront(b);
      SortUnique(front, rest);
    }
  }
}
