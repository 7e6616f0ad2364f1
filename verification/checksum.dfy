/**
 The IPv4 header checksum of section 3.1 of RFC 791: the 16-bit one's
 complement of the one's complement sum of all 16-bit words of the header,
 computed with the checksum field itself taken as zero.
 */
module Ipv4Checksum {
  import opened Packets

  /** 0xffff: one's complement arithmetic on 16 bits is arithmetic modulo M. */
  const M: int := 0xffff

  /** One's complement addition: add, then fold the carry back in. */
  function OnesAdd(a: u16, b: u16): (r: u16)
    ensures r % M == (a + b) % M
    ensures r == 0 <==> a == 0 && b == 0
  {
    if a + b > M then a + b - M else a + b
  }

  /** The one's complement sum of a sequence of 16-bit words. */
  function OnesSum(ws: seq<u16>): (r: u16)
  {
    if |ws| == 0 then 0 else OnesAdd(ws[0], OnesSum(ws[1..]))
  }

  /** The ordinary integer sum of a sequence of words, used to reason about OnesSum. */
  function Sum(ws: seq<u16>): (s: int)
    ensures s >= 0
  {
    if |ws| == 0 then 0 else ws[0] + Sum(ws[1..])
  }

  /** Option bytes read as big-endian 16-bit words; an odd last byte is padded with zero. */
  function OptionWords(opts: seq<u8>): (ws: seq<u16>)
  {
    if |opts| == 0 then []
    else if |opts| == 1 then [(opts[0] as int) * 0x100]
    else [(opts[0] as int) * 0x100 + opts[1]] + OptionWords(opts[2..])
  }

  /** The five header words in front of the checksum word. */
  function LeadingWords(h: IPv4Header): (ws: seq<u16>)
  {
    [ h.version * 0x1000 + h.headerLength * 0x100 + h.diffServ,
      h.totalLength,
      h.identification,
      h.flags * 0x2000 + h.fragmentOffset,
      h.ttl * 0x100 + h.protocol ]
  }

  /** The header words behind the checksum word: both addresses and the options. */
  function TrailingWords(h: IPv4Header): (ws: seq<u16>)
  {
    [ h.sourceAddress / 0x1_0000, h.sourceAddress % 0x1_0000,
      h.destinationAddress / 0x1_0000, h.destinationAddress % 0x1_0000 ]
    + OptionWords(h.options)
  }

  /** The header as the sequence of 16-bit words it is transmitted as. */
  function HeaderWords(h: IPv4Header): (ws: seq<u16>)
  {
    LeadingWords(h) + [h.checksum] + TrailingWords(h)
  }

  /** The checksum the header should carry: the complement of the one's
      complement sum of its words with the checksum field zeroed. */
  function Checksum(h: IPv4Header): (c: u16)
  {
    M - OnesSum(HeaderWords(h.(checksum := 0)))
  }

  /** The router's test: the stored checksum equals the recomputed one. */
  predicate ChecksumValid(h: IPv4Header)
  {
    h.checksum == Checksum(h)
  }

  /** The header with its checksum field recomputed; every other field is kept. */
  function WithChecksum(h: IPv4Header): (r: IPv4Header)
    ensures ChecksumValid(r)
    ensures r.(checksum := h.checksum) == h
  {
    h.(checksum := Checksum(h))
  }

  lemma {:induction false} SumConcat(a: seq<u16>, b: seq<u16>)
    ensures Sum(a + b) == Sum(a) + Sum(b)
  {
    if |a| > 0 {
      assert (a + b)[1..] == a[1..] + b;
      SumConcat(a[1..], b);
    } else {
      assert a + b == b;
    }
  }

  /** The one's complement sum agrees with the integer sum modulo 0xffff. */
  lemma {:induction false} OnesSumCongruent(ws: seq<u16>)
    ensures OnesSum(ws) % M == Sum(ws) % M
  {
    if |ws| > 0 {
      OnesSumCongruent(ws[1..]);
      ModShift(ws[0], OnesSum(ws[1..]), Sum(ws[1..]));
    }
  }

  lemma ModShift(a: int, x: int, y: int)
    requires x % M == y % M
    ensures (a + x) % M == (a + y) % M
  {
  }

  lemma ModDiff(x: int, y: int)
    requires x % M == y % M
    ensures (x - y) % M == 0
  {
  }

  /** The one's complement sum is zero exactly when every word is zero. */
  lemma {:induction false} OnesSumZero(ws: seq<u16>)
    ensures OnesSum(ws) == 0 <==> Sum(ws) == 0
  {
    if |ws| > 0 {
      OnesSumZero(ws[1..]);
    }
  }

  /** The word sum of a header is the word sum with the checksum zeroed, plus the checksum. */
  lemma SumSplitsAtChecksum(h: IPv4Header)
    ensures Sum(HeaderWords(h)) == Sum(HeaderWords(h.(checksum := 0))) + h.checksum
  {
    var z := h.(checksum := 0);
    SumConcat(LeadingWords(h) + [h.checksum], TrailingWords(h));
    SumConcat(LeadingWords(h), [h.checksum]);
    SumConcat(LeadingWords(z) + [0], TrailingWords(z));
    SumConcat(LeadingWords(z), [0]);
  }

  /** The arithmetic core of the checksum proofs. `sum0` and `s0` are the
      integer and one's complement sums of a header with a zeroed checksum,
      `sum` and `x` those of the header carrying checksum `c`. */
  lemma ChecksumArithmetic(sum0: int, s0: int, c: int, sum: int, x: int)
    requires sum0 >= 0 && 0 <= s0 <= M && 0 <= c <= M && 0 <= x <= M
    requires sum == sum0 + c
    requires (sum0 - s0) % M == 0 && (sum - x) % M == 0
    requires s0 == 0 <==> sum0 == 0
    requires x == 0 <==> sum == 0
    ensures s0 + c == M ==> x == M
    ensures x == M && !(c == M && s0 == M) ==> s0 + c == M
  {
  }

  /** The receiver's test of section 3.1 of RFC 791: a header carrying the
      recomputed checksum sums, checksum word included, to all ones. */
  lemma FullSumIsAllOnes(h: IPv4Header)
    ensures OnesSum(HeaderWords(WithChecksum(h))) == M
  {
    var hc := WithChecksum(h);
    assert hc.(checksum := 0) == h.(checksum := 0);
    var ws0, ws := HeaderWords(h.(checksum := 0)), HeaderWords(hc);
    SumSplitsAtChecksum(hc);
    OnesSumCongruent(ws0);
    OnesSumCongruent(ws);
    OnesSumZero(ws0);
    OnesSumZero(ws);
    ModDiff(Sum(ws0), OnesSum(ws0));
    ModDiff(Sum(ws), OnesSum(ws));
    ChecksumArithmetic(Sum(ws0), OnesSum(ws0), hc.checksum, Sum(ws), OnesSum(ws));
  }

  /** The router's recompute-and-compare test accepts exactly the headers that
      the receiver's all-ones test accepts, except the one header whose
      checksum should be 0 but is stored in its other encoding, 0xffff. */
  lemma ValidIffAllOnes(h: IPv4Header)
    ensures ChecksumValid(h) <==>
      (OnesSum(HeaderWords(h)) == M && !(h.checksum == M && Checksum(h) == 0))
  {
    if ChecksumValid(h) {
      FullSumIsAllOnes(h);
      assert WithChecksum(h) == h;
    }
    if OnesSum(HeaderWords(h)) == M && !(h.checksum == M && Checksum(h) == 0) {
      AllOnesIsValid(h);
    }
  }

  lemma AllOnesIsValid(h: IPv4Header)
    requires OnesSum(HeaderWords(h)) == M
    requires !(h.checksum == M && Checksum(h) == 0)
    ensures ChecksumValid(h)
  {
    var ws0, ws := HeaderWords(h.(checksum := 0)), HeaderWords(h);
    SumSplitsAtChecksum(h);
    OnesSumCongruent(ws0);
    OnesSumCongruent(ws);
    OnesSumZero(ws0);
    OnesSumZero(ws);
    ModDiff(Sum(ws0), OnesSum(ws0));
    ModDiff(Sum(ws), OnesSum(ws));
    ChecksumArithmetic(Sum(ws0), OnesSum(ws0), h.checksum, Sum(ws), OnesSum(ws));
  }

  /** Changing only the TTL of a header while keeping its checksum always
      breaks the checksum: a forwarder must recompute it after the decrement. */
  lemma TtlChangeBreaksChecksum(h: IPv4Header, t: u8)
    requires ChecksumValid(h)
    requires t != h.ttl
    ensures !ChecksumValid(h.(ttl := t))
  {
    var h' := h.(ttl := t);
    var z, z' := h.(checksum := 0), h'.(checksum := 0);
    var d := (t - h.ttl) * 0x100;
    assert Sum(HeaderWords(z')) == Sum(HeaderWords(z)) + d by {
      SumConcat(LeadingWords(z) + [0], TrailingWords(z));
      SumConcat(LeadingWords(z') + [0], TrailingWords(z'));
      assert TrailingWords(z) == TrailingWords(z');
      SumLeading(z);
      SumLeading(z');
      SumConcat(LeadingWords(z), [0]);
      SumConcat(LeadingWords(z'), [0]);
    }
    OnesSumCongruent(HeaderWords(z));
    OnesSumCongruent(HeaderWords(z'));
    if Checksum(h') == h.checksum {
      assert OnesSum(HeaderWords(z')) == OnesSum(HeaderWords(z));
      ModDiff(Sum(HeaderWords(z')), Sum(HeaderWords(z)));
    }
  }

  lemma SumLeading(h: IPv4Header)
    ensures Sum(LeadingWords(h)) ==
      LeadingWords(h)[0] + h.totalLength + h.identification + LeadingWords(h)[3] + h.ttl * 0x100 + h.protocol
  {
    var l := LeadingWords(h);
    assert Sum(l[4..]) == l[4] by { assert l[4..][1..] == []; }
    assert Sum(l[3..]) == l[3] + Sum(l[4..]) by { assert l[3..][1..] == l[4..]; }
    assert Sum(l[2..]) == l[2] + Sum(l[3..]) by { assert l[2..][1..] == l[3..]; }
    assert Sum(l[1..]) == l[1] + Sum(l[2..]) by { assert l[1..][1..] == l[2..]; }
  }
}
