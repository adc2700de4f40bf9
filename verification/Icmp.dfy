/**
 The Internet checksum of an ICMP Echo request (src/monitoring/icmp.py) against word-by-word
 end-around-carry addition, section 1 of RFC 1071.
 */
module Icmp {

  type Byte = b: int | 0 <= b < 256

  type Word = w: int | 0 <= w < 0x1_0000

  function Padded(payload: seq<Byte>): (r: seq<Byte>)
    ensures |r| % 2 == 0
  {
    if |payload| % 2 == 0 then payload else payload + [0]
  }

  /** struct.unpack("!nH", payload) */
  function Words(payload: seq<Byte>): (r: seq<Word>)
    requires |payload| % 2 == 0
    ensures |r| == |payload| / 2
  {
    if payload == [] then [] else [(payload[0] as int) * 256 + payload[1] as int] + Words(payload[2..])
  }

  function Sum(words: seq<Word>): nat {
    if words == [] then 0 else words[0] + Sum(words[1..])
  }

  /** The two folding steps of the code. */
  function FoldTwice(total: nat): nat {
    var once := total / 0x1_0000 + total % 0x1_0000;
    once + once / 0x1_0000
  }

  /** The complement of the word that the folds leave. */
  function Folded(payload: seq<Byte>): Word { 0xFFFF - FoldTwice(Sum(Words(Padded(payload)))) % 0x1_0000 }

  /** _checksum: the complement of end-around-carry addition, up to 131076 bytes. */
  method Checksum(payload: seq<Byte>) returns (checksum: Word)
    ensures checksum == Folded(payload)
    ensures |payload| <= 131076 ==> checksum == 0xFFFF - OnesSum(Words(Padded(payload)))
  {
    var padded := payload;
    if |padded| % 2 != 0 {
      padded := padded + [0];
    }
    var total := Sum(Words(padded));
    total := total / 0x1_0000 + total % 0x1_0000;
    total := total + total / 0x1_0000;
    checksum := 0xFFFF - total % 0x1_0000;
    if |payload| <= 131076 {
      ChecksumIsOnesComplement(payload);
    }
  }

  // ---- End-around carry -------------------------------------------------------------------------

  /** One's complement addition of two words: the carry out of the top bit is added back in. */
  function AddCarry(a: Word, b: Word): Word {
    if a + b < 0x1_0000 then a + b else a + b - 0xFFFF
  }

  function OnesSum(words: seq<Word>): Word {
    if words == [] then 0 else AddCarry(words[0], OnesSum(words[1..]))
  }

  /** The word congruent to the plain sum modulo 65535, zero only for a zero sum. */
  function Residue(total: nat): Word {
    if total == 0 then 0 else (total - 1) % 0xFFFF + 1
  }

  lemma {:induction false} OnesSumIsResidue(words: seq<Word>)
    ensures OnesSum(words) == Residue(Sum(words))
  {
    if words != [] {
      OnesSumIsResidue(words[1..]);
    }
  }

  /** a + b of the once-folded sum a * 65536 + b. */
  function Unfolded(total: nat): nat {
    var once := total / 0x1_0000 + total % 0x1_0000;
    once / 0x1_0000 + once % 0x1_0000
  }

  lemma ResidueUnique(total: nat, w: Word, q: int)
    requires total == w + q * 0xFFFF && (w == 0 <==> total == 0)
    ensures w == Residue(total)
  {
    if total != 0 {
      assert total - 1 == (w - 1) + q * 0xFFFF;
    }
  }

  /** The two folds give the end-around-carry sum exactly when folding the once-folded sum leaves no
      carry, or a carry that is itself a multiple of 65535 beside a non-zero word. */
  lemma TwoFoldsExact(total: nat)
    ensures FoldTwice(total) % 0x1_0000 == Residue(total)
            <==> var carry, word := Unfolded(total) / 0x1_0000, Unfolded(total) % 0x1_0000;
                 carry == 0 || (carry % 0xFFFF == 0 && word != 0)
  {
    var carry, word := Unfolded(total) / 0x1_0000, Unfolded(total) % 0x1_0000;
    var q := FoldTwiceWord(total);
    if carry == 0 || (carry % 0xFFFF == 0 && word != 0) {
      ResidueUnique(total, word, carry / 0xFFFF + q);
    } else if word == Residue(total) {
      ResidueDivides(total);
      SameMultiple(carry, q, (total - Residue(total)) / 0xFFFF);
    }
  }

  /** The word the two folds leave, and its distance from the sum. */
  lemma FoldTwiceWord(total: nat) returns (q: int)
    ensures var carry, word := Unfolded(total) / 0x1_0000, Unfolded(total) % 0x1_0000;
            FoldTwice(total) % 0x1_0000 == word && total == word + carry + q * 0xFFFF
  {
    var hi, lo := total / 0x1_0000, total % 0x1_0000;
    var once := hi + lo;
    var a, b := once / 0x1_0000, once % 0x1_0000;
    assert once == a * 0x1_0000 + b;
    var carry, word := SplitWord(a + b);
    assert FoldTwice(total) == (a + carry) * 0x1_0000 + word;
    WordOf(a + carry, word);
    q := carry + a + hi;
  }

  lemma SplitWord(n: nat) returns (carry: nat, word: Word)
    ensures carry == n / 0x1_0000 && word == n % 0x1_0000 && n == carry * 0x1_0000 + word
  {
    carry, word := n / 0x1_0000, n % 0x1_0000;
  }

  lemma WordOf(n: nat, word: Word)
    ensures (n * 0x1_0000 + word) % 0x1_0000 == word
  {
  }

  lemma SameMultiple(carry: int, q: int, p: int)
    requires carry + q * 0xFFFF == p * 0xFFFF
    ensures carry % 0xFFFF == 0
  {
    assert carry == (p - q) * 0xFFFF;
  }

  lemma ResidueDivides(total: nat)
    ensures (total - Residue(total)) % 0xFFFF == 0
  {
    if total > 0 {
      assert total - Residue(total) == (total - 1) / 0xFFFF * 0xFFFF;
    }
  }

  lemma {:induction false} SumBound(words: seq<Word>)
    ensures Sum(words) <= 0xFFFF * |words|
  {
    if words != [] {
      SumBound(words[1..]);
    }
  }

  /** For every payload of at most 131076 bytes the checksum is the complement of the end-around-carry
      sum of its words. */
  lemma ChecksumIsOnesComplement(payload: seq<Byte>)
    requires |payload| <= 131076
    ensures Folded(payload) == 0xFFFF - OnesSum(Words(Padded(payload)))
  {
    var words := Words(Padded(payload));
    SumBound(words);
    OnesSumIsResidue(words);
    assert |words| <= 65538;
    assert Sum(words) <= 0xFFFF * 65538;
    SmallSumsFold(Sum(words));
    TwoFoldsExact(Sum(words));
  }

  lemma SmallSumsFold(total: nat)
    requires total <= 0xFFFF * 65538
    ensures Unfolded(total) < 0x1_0000
  {
  }

  // ---- The bound is tight -----------------------------------------------------------------------

  function Ones(n: nat): (r: seq<Byte>)
    ensures |r| == n && forall i :: 0 <= i < n ==> r[i] == 0xFF
  {
    seq(n, _ => 0xFF)
  }

  lemma {:induction false} OnesSumOf(n: nat)
    ensures Sum(Words(Ones(2 * n))) == 0xFFFF * n
  {
    if n > 0 {
      assert Ones(2 * n)[2..] == Ones(2 * (n - 1));
      OnesSumOf(n - 1);
    }
  }

  lemma {:induction false} SumAppend(payload: seq<Byte>, x: Byte, y: Byte)
    requires |payload| % 2 == 0
    ensures |payload + [x, y]| % 2 == 0
    ensures Sum(Words(payload + [x, y])) == Sum(Words(payload)) + x * 256 + y
  {
    var s := payload + [x, y];
    if payload == [] {
      assert s[2..] == [];
    } else {
      SumAppend(payload[2..], x, y);
      assert s[2..] == payload[2..] + [x, y];
    }
  }

  /** One word more is too many: 65538 all-ones words and then the word 1 make 131078 bytes whose two
      folds end in zero, although their end-around-carry sum is 1. */
  lemma BoundIsTight()
    ensures var payload := Ones(131076) + [0, 1];
            && |payload| == 131078
            && Folded(payload) == 0xFFFF && OnesSum(Words(Padded(payload))) == 1
  {
    var payload := Ones(131076) + [0, 1];
    OnesSumOf(65538);
    SumAppend(Ones(131076), 0, 1);
    OnesSumIsResidue(Words(payload));
  }

  // ---- The request packet -----------------------------------------------------------------------

  function Header(echoType: Byte, checksum: Word, sequence: Word): seq<Byte> {
    [echoType, 0, checksum / 256, checksum % 256, 0, 0, sequence / 256, sequence % 256]
  }

  /** _request_packet for an IPv4 (4) or IPv6 (6) address. */
  method RequestPacket(version: int, sequence: Word, payload: seq<Byte>) returns (packet: seq<Byte>)
    ensures version == 4 ==>
              packet == Header(8, Folded(Header(8, 0, sequence) + payload), sequence) + payload
    ensures version == 4 && |packet| <= 131076 ==> Folded(packet) == 0
    ensures |packet| == 8 + |payload| && packet[8..] == payload
    ensures packet[0] == (if version == 4 then 8 else 128) && packet[1] == packet[4] == packet[5] == 0
    ensures packet[6] as int * 256 + packet[7] as int == sequence
    ensures version != 4 ==> packet[2] == packet[3] == 0
    ensures version != 4 ==> packet == Header(128, 0, sequence) + payload
  {
    var header := Header(if version == 4 then 8 else 128, 0, sequence);
    if version == 4 {
      var checksum := Checksum(header + payload);
      header := Header(8, checksum, sequence);
    }
    packet := header + payload;
    if version == 4 && |packet| <= 131076 {
      RequestChecksumVerifies(sequence, payload);
    }
  }

  /** Filling the checksum field adds its value to the word sum. */
  lemma FieldAddsToSum(checksum: Word, sequence: Word, payload: seq<Byte>)
    ensures Sum(Words(Padded(Header(8, checksum, sequence) + payload)))
            == checksum + Sum(Words(Padded(Header(8, 0, sequence) + payload)))
    ensures Sum(Words(Padded(Header(8, 0, sequence) + payload))) >= 0x800
  {
    var p, q := Padded(Header(8, checksum, sequence) + payload), Padded(Header(8, 0, sequence) + payload);
    assert p[2..][2..] == q[2..][2..];
    var u, v := Words(p), Words(q);
    assert p[2] == checksum / 256 && p[3] == checksum % 256 && q[2] == 0 && q[3] == 0;
    assert u[0] == v[0] == 0x800 && u[1] == Words(p[2..])[0] && v[1] == Words(q[2..])[0];
    assert u[1] == checksum && v[1] == 0;
    assert u[1..] == Words(p[2..]) && v[1..] == Words(q[2..]);
    assert u[1..][1..] == Words(p[2..][2..]) && v[1..][1..] == Words(q[2..][2..]);
    assert Sum(u) == u[0] + (u[1..][0] + Sum(u[1..][1..]));
    assert Sum(v) == v[0] + (v[1..][0] + Sum(v[1..][1..]));
  }

  /** The receiver's test: the checksum of every IPv4 request packet within the bound is zero. */
  lemma RequestChecksumVerifies(sequence: Word, payload: seq<Byte>)
    requires |payload| + 8 <= 131076
    ensures Folded(Header(8, Folded(Header(8, 0, sequence) + payload), sequence) + payload) == 0
  {
    var blank := Header(8, 0, sequence) + payload;
    var total := Sum(Words(Padded(blank)));
    var checksum := Folded(blank);
    var packet := Header(8, checksum, sequence) + payload;
    ChecksumIsOnesComplement(blank);
    ChecksumIsOnesComplement(packet);
    OnesSumIsResidue(Words(Padded(blank)));
    OnesSumIsResidue(Words(Padded(packet)));
    FieldAddsToSum(checksum, sequence, payload);
    assert checksum == 0xFFFF - Residue(total);
    ComplementCompletes(total);
  }

  lemma ComplementCompletes(total: nat)
    requires total > 0
    ensures Residue(total + (0xFFFF - Residue(total))) == 0xFFFF
  {
    var r := Residue(total);
    var q := (total - 1) / 0xFFFF;
    assert total == r + q * 0xFFFF;
    ResidueUnique(total + (0xFFFF - r), 0xFFFF, q);
  }
}
