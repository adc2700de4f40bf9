/** Shared vocabulary: optional values, clock units and the row-set idioms of a database query. */
module Common {

  datatype Option<+T> = None | Some(value: T)

  /** A call that returns a value, or raises and so rolls its transaction back. */
  datatype Result<+T> = Ok(value: T) | Raised

  /** Instants and durations are whole microseconds, the resolution of Python's datetime. */
  type Time = int

  function Seconds(n: int): Time { n * 1_000_000 }

  /** int(d.total_seconds()) for a non-negative duration. */
  function WholeSeconds(d: Time): int { d / 1_000_000 }

  /** math.ceil(d.total_seconds()) */
  function CeilSeconds(d: Time): int { (d + 999_999) / 1_000_000 }

  function Max(a: int, b: int): int { if a >= b then a else b }

  function Min(a: int, b: int): int { if a <= b then a else b }

  /** The rows of a table that satisfy a filter, in table order. */
  function Where<T(!new)>(rows: seq<T>, p: T -> bool): (r: seq<T>)
    ensures forall e {:trigger e in r} :: e in r <==> e in rows && p(e)
    ensures |r| <= |rows|
  {
    if rows == [] then []
    else
      var e := rows[|rows| - 1];
      var front := Where(rows[..|rows| - 1], p);
      if p(e) then front + [e] else front
  }

  lemma WhereAppend<T(!new)>(a: seq<T>, b: seq<T>, p: T -> bool)
    ensures Where(a + b, p) == Where(a, p) + Where(b, p)
  {
    if b == [] {
      assert a + b == a;
    } else {
      var front := b[..|b| - 1];
      assert (a + b)[..|a + b| - 1] == a + front;
      WhereAppend(a, front, p);
    }
  }

  /** Two filters that agree on every row select the same rows. */
  lemma WhereCongruent<T(!new)>(rows: seq<T>, p: T -> bool, q: T -> bool)
    requires forall e :: e in rows ==> p(e) == q(e)
    ensures Where(rows, p) == Where(rows, q)
  {
    if rows != [] {
      WhereCongruent(rows[..|rows| - 1], p, q);
    }
  }

  lemma WhereNested<T(!new)>(rows: seq<T>, p: T -> bool, q: T -> bool)
    requires forall e :: e in rows && q(e) ==> p(e)
    ensures Where(Where(rows, p), q) == Where(rows, q)
  {
    if rows != [] {
      var front := rows[..|rows| - 1];
      WhereNested(front, p, q);
      if p(rows[|rows| - 1]) {
        WhereAppend(Where(front, p), [rows[|rows| - 1]], q);
      }
    }
  }
}
