/** A codec with the promises that the producer relies on exists: they do not contradict each other. */
module CodecExists {
  import opened Common
  import opened Text
  import opened Notify

  /** An instant as a signed number. */
  function Stamp(t: Time): string {
    if !Instant(t) then "x" else if t < 0 then "-" + Decimal(-t) else "+" + Decimal(t)
  }

  /** 0 past the end, one more than the character within ASCII. */
  function At(x: string, j: nat): nat {
    if j >= |x| then 0 else if x[j] as int < 128 then x[j] as int + 1 else 128
  }

  /** Two characters of the text in one character of the digest. */
  function Pair(x: string, i: nat): char { (0x4000 + 129 * At(x, 2 * i) + At(x, 2 * i + 1)) as char }

  function Digest(x: string): (r: string)
    ensures |r| == 64 && forall i :: 0 <= i < 64 ==> r[i] == Pair(x, i)
  {
    seq(64, i requires 0 <= i < 64 => Pair(x, i))
  }

  const EXAMPLE := Codec(x => Digest(x), t => Stamp(t))

  predicate Short(x: string) { |x| <= 128 && forall i :: 0 <= i < |x| ==> x[i] as int < 128 }

  lemma PairInjective(x: string, y: string, i: nat)
    requires Pair(x, i) == Pair(y, i)
    ensures At(x, 2 * i) == At(y, 2 * i) && At(x, 2 * i + 1) == At(y, 2 * i + 1)
  {
  }

  lemma PairVisible(x: string, i: nat)
    ensures !IsSpace(Pair(x, i))
  {
  }

  /** No two short texts share a digest. */
  lemma DigestInjective(x: string, y: string)
    requires Short(x) && Short(y) && Digest(x) == Digest(y)
    ensures x == y
  {
    hide Pair, At;
    forall j: nat | j < 128 ensures At(x, j) == At(y, j) {
      assert Digest(x)[j / 2] == Pair(x, j / 2) && Digest(y)[j / 2] == Pair(y, j / 2);
      PairInjective(x, y, j / 2);
    }
    SameText(x, y);
  }

  lemma SameText(x: string, y: string)
    requires Short(x) && Short(y) && forall j: nat :: j < 128 ==> At(x, j) == At(y, j)
    ensures x == y
  {
    assert |x| < 128 ==> At(x, |x|) == At(y, |x|);
    assert |y| < 128 ==> At(x, |y|) == At(y, |y|);
    forall i | 0 <= i < |x| ensures x[i] == y[i] {
      assert At(x, i) == At(y, i);
    }
  }

  predicate Plain(x: string, n: nat) { |x| <= n && forall i :: 0 <= i < |x| ==> x[i] as int < 128 }

  lemma PlainConcat(x: string, m: nat, y: string, n: nat)
    requires Plain(x, m) && Plain(y, n)
    ensures Plain(x + y, m + n)
  {
  }

  lemma PlainDecimal(n: nat)
    requires n < 1_000_000_000_000_000_000 || RowId(n)
    ensures Plain(Decimal(n), 19) && Decimal(n) != ""
    ensures forall i :: 0 <= i < |Decimal(n)| ==> !IsSpace(Decimal(n)[i])
  {
    IdDigits(n);
    forall i | 0 <= i < |Decimal(n)| ensures IsDigit(Decimal(n)[i]) {
      assert Decimal(n)[i] in Decimal(n);
    }
  }

  lemma StampPlain(t: Time)
    ensures Plain(Stamp(t), 20) && Stamp(t) != "" && Trimmed(Stamp(t))
  {
    if Instant(t) {
      PlainDecimal(if t < 0 then -t else t);
    }
  }

  lemma StampInjective(t: Time, u: Time)
    requires Instant(t) && Instant(u) && Stamp(t) == Stamp(u)
    ensures t == u
  {
    assert Stamp(t)[0] == Stamp(u)[0] && Stamp(t)[1..] == Stamp(u)[1..];
    DecimalInjective(if t < 0 then -t else t, if u < 0 then -u else u);
  }

  lemma NamePlain(e: EventType)
    ensures Plain(EventName(e), 12)
  {
  }

  /** Every text the producer digests is short. */
  lemma ProducedIsShort(x: string)
    requires Produced(EXAMPLE, x)
    ensures Short(x)
  {
    hide Plain, Stamp, Decimal, EventName;
    var e, m: nat, k: nat, t :| RowId(m) && RowId(k) && x == DigestInput(e, TransitionId(EXAMPLE, m, k, t));
    PlainDecimal(m);
    PlainDecimal(k);
    StampPlain(t);
    NamePlain(e);
    FixedPlain();
    PlainConcat([':'], 1, Stamp(t), 20);
    PlainConcat(Decimal(k), 19, [':'] + Stamp(t), 21);
    assert Decimal(k) + ([':'] + Stamp(t)) == Decimal(k) + [':'] + Stamp(t);
    var tail := Decimal(k) + [':'] + Stamp(t);
    PlainConcat([':'], 1, tail, 40);
    PlainConcat(Decimal(m), 19, [':'] + tail, 41);
    assert Decimal(m) + ([':'] + tail) == Decimal(m) + [':'] + tail;
    PlainConcat("check-result:", 13, Decimal(m) + [':'] + tail, 60);
    var tid := TransitionId(EXAMPLE, m, k, t);
    PlainConcat(['\0'], 1, tid, 73);
    PlainConcat(EventName(e), 12, ['\0'] + tid, 74);
    assert EventName(e) + (['\0'] + tid) == EventName(e) + ['\0'] + tid;
    PlainConcat("goreecloud-monitor\0v1\0", 22, EventName(e) + ['\0'] + tid, 86);
    PlainIsShort(x);
  }

  lemma FixedPlain()
    ensures Plain([':'], 1) && Plain(['\0'], 1) && Plain("check-result:", 13) && Plain("goreecloud-monitor\0v1\0", 22)
  {
  }

  lemma PlainIsShort(x: string)
    requires Plain(x, 108)
    ensures Short(x)
  {
  }

  /** The promises can be kept together. */
  lemma ExampleIsFaithful()
    ensures Faithful(EXAMPLE)
  {
    hide Produced, Pair, Stamp, Trimmed, Instant, IsSpace;
    forall x, y | Produced(EXAMPLE, x) && Produced(EXAMPLE, y) && EXAMPLE.sha256(x) == EXAMPLE.sha256(y)
      ensures x == y
    {
      ProducedIsShort(x);
      ProducedIsShort(y);
      DigestInjective(x, y);
    }
    forall x, k | 0 <= k < 64 ensures !IsSpace(EXAMPLE.sha256(x)[k]) {
      PairVisible(x, k);
    }
    forall t ensures 1 <= |EXAMPLE.iso(t)| <= 32 && Trimmed(EXAMPLE.iso(t)) {
      StampPlain(t);
    }
    forall t, u | Instant(t) && Instant(u) && EXAMPLE.iso(t) == EXAMPLE.iso(u) ensures t == u {
      StampInjective(t, u);
    }
  }
}
