/** The Internet checksum routine of checksum.c, for either byte order of the host. */
module Checksum {
  import opened Bytes

  /** Byte order in which the host loads and stores 16-bit words. */
  datatype Endian = Little | Big

  /** A C `int`: the verifier checks that no arithmetic on it overflows. */
  newtype Int32 = x: int | -0x8000_0000 <= x < 0x8000_0000

  /** The word loaded from two adjacent bytes of memory. */
  function Load(b0: Byte, b1: Byte, e: Endian): Word16 {
    if e.Little? then b0 + 0x100 * b1 else 0x100 * b0 + b1
  }

  /** The bytes a word occupies in memory. */
  function Stored(w: Word16, e: Endian): (s: seq<Byte>)
    ensures |s| == 2
  {
    if e.Little? then [w % 0x100, w / 0x100] else [w / 0x100, w % 0x100]
  }

  /** The word at the front of a buffer; an odd last byte is followed by a zero byte. */
  function FirstWord(data: seq<Byte>, e: Endian): Word16
    requires data != []
  {
    Load(data[0], if |data| == 1 then 0 else data[1], e)
  }

  function Rest(data: seq<Byte>): seq<Byte>
    requires data != []
  {
    if |data| == 1 then [] else data[2..]
  }

  /** The words that are added up. */
  function Words(data: seq<Byte>, e: Endian): (ws: seq<Word16>)
    decreases |data|
  {
    if data == [] then [] else [FirstWord(data, e)] + Words(Rest(data), e)
  }

  function Total(ws: seq<Word16>): (t: nat) {
    if ws == [] then 0 else ws[0] + Total(ws[1..])
  }

  function WordSum(data: seq<Byte>, e: Endian): nat {
    Total(Words(data, e))
  }

  lemma WordSumStep(data: seq<Byte>, e: Endian)
    requires data != []
    ensures WordSum(data, e) == FirstWord(data, e) + WordSum(Rest(data), e)
  {
    assert Words(data, e)[1..] == Words(Rest(data), e);
  }

  /** The ones-complement representative of a sum: 0 only for 0, otherwise in 1..65535. */
  function Normal(s: nat): Word16 {
    if s == 0 then 0 else (s - 1) % 0xffff + 1
  }

  /** The checksum in closed form. */
  function Cksum(data: seq<Byte>, e: Endian): Word16 {
    0xffff - Normal(WordSum(data, e))
  }

  /** Longest buffer whose sum fits the 32-bit accumulator, whatever it holds. */
  function SafeLength(e: Endian): nat {
    if e.Little? then 65537 else 65536
  }

  // ---------------------------------------------------------------- the routine

  /** Two folds bring any sum the accumulator can hold to its representative. */
  lemma TwoFoldsSuffice(s: nat)
    requires s < 0x8000_0000
    ensures var once := s / 0x1_0000 + s % 0x1_0000;
            (once + once / 0x1_0000) % 0x1_0000 == Normal(s)
  {
    var h, l := s / 0x1_0000, s % 0x1_0000;
    var once := h + l;
    assert s == 0xffff * h + once;
    if s > 0 {
      NormalByCongruence(s, once, h);
      if once <= 0xffff {
        assert Normal(once) == once;
      } else {
        assert once / 0x1_0000 == 1;
        NormalByCongruence(once, once - 0xffff, 1);
        assert Normal(once - 0xffff) == once - 0xffff;
      }
    }
  }

  /** The representative depends on a positive sum only modulo 65535. */
  lemma NormalByCongruence(s: nat, t: nat, k: int)
    requires s > 0 && t > 0 && s == 0xffff * k + t
    ensures Normal(s) == Normal(t)
  {
    var q, r := (t - 1) / 0xffff, (t - 1) % 0xffff;
    assert s - 1 == 0xffff * (k + q) + r;
    DivModUnique(s - 1, k + q, r);
  }

  lemma DivModUnique(n: int, q: int, r: int)
    requires n == 0xffff * q + r && 0 <= r < 0xffff
    ensures n / 0xffff == q && n % 0xffff == r
  {
  }

  /** No buffer within `SafeLength` can overflow the accumulator. */
  lemma {:induction false} SumFits(data: seq<Byte>, e: Endian)
    ensures WordSum(data, e) <= LargestSum(|data|, e)
    decreases |data|
  {
    if data != [] {
      SumFits(Rest(data), e);
      WordSumStep(data, e);
    }
  }

  lemma SafeSum(data: seq<Byte>, e: Endian)
    requires |data| <= SafeLength(e)
    ensures WordSum(data, e) < 0x8000_0000
    ensures WordSum([], e) == 0
  {
    SumFits(data, e);
  }

  /** The sum over `n` bytes 0xff. */
  function LargestSum(n: nat, e: Endian): nat {
    0xffff * (n / 2) + (if n % 2 == 0 then 0 else if e.Little? then 0xff else 0xff00)
  }

  function Ones(n: nat): seq<Byte> {
    seq(n, i => 0xff)
  }

  lemma {:induction false} OnesSum(n: nat, e: Endian)
    ensures WordSum(Ones(n), e) == LargestSum(n, e)
  {
    if n > 0 {
      var m := if n == 1 then 0 else n - 2;
      OnesSum(m, e);
      assert Rest(Ones(n)) == Ones(m);
      WordSumStep(Ones(n), e);
    }
  }

  /** The accumulator is safe for every content of a buffer exactly up to `SafeLength`. */
  lemma AccumulatorBoundIsTight(n: nat, e: Endian)
    ensures (forall data: seq<Byte> :: |data| == n ==> WordSum(data, e) < 0x8000_0000)
       <==> n <= SafeLength(e)
  {
    if n <= SafeLength(e) {
      forall data: seq<Byte> | |data| == n
        ensures WordSum(data, e) < 0x8000_0000
      {
        SafeSum(data, e);
      }
    } else {
      OnesSum(n, e);
      assert |Ones(n)| == n && WordSum(Ones(n), e) >= 0x8000_0000;
    }
  }

  /** The routine: sums words as loaded, mops up an odd byte, folds twice and complements. The answer makes the sum a
      multiple of 65535, and it is 0xffff only for the sum 0; by `ComplementIsOne` no other word does. */
  method InCksum(addr: array<Byte>, len: int, e: Endian) returns (answer: Word16)
    requires len <= addr.Length && len <= SafeLength(e)
    ensures var data := addr[..if len < 0 then 0 else len];
            && answer == Cksum(data, e) && Complements(WordSum(data, e), answer)
            && Complements(Number(Even(data)), Get16(Stored(answer, e), 0))
  {
    hide WordSum, Normal, Complements, Number, Even, Stored, Get16;
    ghost var data := addr[..if len < 0 then 0 else len];
    SafeSum(data, e);
    var sum: Int32 := 0;
    var w := 0;
    var nleft := len;
    while nleft > 1
      invariant 0 <= w <= |data| && (nleft == |data| - w || (w == 0 && nleft == len < 0))
      invariant data == addr[..|data|]
      invariant sum as int + WordSum(data[w..], e) == WordSum(data, e)
      invariant sum >= 0
    {
      WordSumStep(data[w..], e);
      assert Rest(data[w..]) == data[w + 2..];
      sum := sum + Load(addr[w], addr[w + 1], e) as Int32;
      w := w + 2;
      nleft := nleft - 2;
    }
    if nleft == 1 {
      WordSumStep(data[w..], e);
      assert data[w..] == [addr[w]];
      sum := sum + Load(addr[w], 0, e) as Int32;
    } else {
      assert data[w..] == [];
    }
    assert sum as int == WordSum(data, e);
    TwoFoldsSuffice(sum as int);
    sum := sum / 0x1_0000 + sum % 0x1_0000;
    sum := sum + sum / 0x1_0000;
    answer := 0xffff - (sum % 0x1_0000) as int;
    assert answer == Cksum(data, e);
    hide Cksum;
    CksumComplements(data, e);
    StoredComplements(data, e);
  }

  // ---------------------------------------------------------------- what the answer is

  /** The word brings the sum to a multiple of 65535, and is 0xffff exactly for the sum 0. */
  predicate Complements(sum: nat, answer: Word16) {
    (sum + answer) % 0xffff == 0 && (answer == 0xffff <==> sum == 0)
  }

  /** One word at most complements a sum. */
  lemma ComplementIsOne(sum: nat, a: Word16, b: Word16)
    requires Complements(sum, a) && Complements(sum, b)
    ensures a == b
  {
    var k, l := (sum + a) / 0xffff, (sum + b) / 0xffff;
    assert sum + a == 0xffff * k && sum + b == 0xffff * l;
    assert a - b == 0xffff * (k - l);
  }

  lemma CksumComplements(data: seq<Byte>, e: Endian)
    ensures Complements(WordSum(data, e), Cksum(data, e))
  {
    NormalComplements(WordSum(data, e));
  }

  lemma NormalComplements(sum: nat)
    ensures Complements(sum, 0xffff - Normal(sum))
  {
    if sum > 0 {
      var q, r := (sum - 1) / 0xffff, (sum - 1) % 0xffff;
      assert sum - 1 == 0xffff * q + r;
      DivModUnique(sum + 0xffff - Normal(sum), q + 1, 0);
    }
  }

  /** An odd buffer with the zero byte that is added to it. */
  function Even(data: seq<Byte>): (r: seq<Byte>)
    ensures |r| % 2 == 0
  {
    if |data| % 2 == 0 then data else data + [0]
  }

  /** The buffer read as one number, its first byte the most significant. */
  function Number(data: seq<Byte>): nat {
    if data == [] then 0 else 0x100 * Number(data[..|data| - 1]) + data[|data| - 1]
  }

  lemma NumberOfPair(data: seq<Byte>, x: Byte, y: Byte)
    ensures Number(data + [x, y]) == 0x1_0000 * Number(data) + 0x100 * x + y
  {
    var longer := data + [x];
    assert (data + [x, y])[..|data| + 1] == longer && longer[..|data|] == data;
  }

  lemma {:induction false} SumOfPair(data: seq<Byte>, x: Byte, y: Byte)
    requires |data| % 2 == 0
    ensures WordSum(data + [x, y], Big) == WordSum(data, Big) + 0x100 * x + y
    decreases |data|
  {
    WordSumStep(data + [x, y], Big);
    if data == [] {
      assert Rest(data + [x, y]) == [];
    } else {
      assert Rest(data + [x, y]) == Rest(data) + [x, y];
      WordSumStep(data, Big);
      SumOfPair(Rest(data), x, y);
    }
  }

  /** The sum of the words in network order and the whole buffer as one number agree modulo 65535. */
  lemma {:induction false} SumIsNumber(data: seq<Byte>) returns (k: nat)
    requires |data| % 2 == 0
    ensures Number(data) == 0xffff * k + WordSum(data, Big)
    ensures Number(data) == 0 <==> WordSum(data, Big) == 0
  {
    if data == [] {
      k := 0;
    } else {
      var n := |data| - 2;
      var front, x, y := data[..n], data[n], data[n + 1];
      var j := SumIsNumber(front);
      NumberOfPair(front, x, y);
      SumOfPair(front, x, y);
      assert data == front + [x, y];
      k := j + Number(front);
    }
  }

  lemma {:induction false} EvenSum(data: seq<Byte>, e: Endian)
    ensures WordSum(Even(data), e) == WordSum(data, e)
    decreases |data|
  {
    if |data| % 2 == 1 {
      WordSumStep(data, e);
      WordSumStep(Even(data), e);
      if |data| == 1 {
        assert Rest(Even(data)) == [];
      } else {
        assert Rest(Even(data)) == Even(Rest(data));
        EvenSum(Rest(data), e);
      }
    }
  }

  /** The two bytes that a host of either byte order stores, read as a word in network order, complement the
      whole buffer read as one number. */
  lemma StoredComplements(data: seq<Byte>, e: Endian)
    ensures Complements(Number(Even(data)), Get16(Stored(Cksum(data, e), e), 0))
  {
    ByteOrderIndependence(data);
    CksumComplements(data, Big);
    EvenSum(data, Big);
    var k := SumIsNumber(Even(data));
    var c := Cksum(data, Big);
    assert Get16(Stored(c, Big), 0) == c;
    var q := (WordSum(data, Big) + c) / 0xffff;
    assert Number(Even(data)) + c == 0xffff * (k + q);
    DivModUnique(Number(Even(data)) + c, k + q, 0);
  }

  // ---------------------------------------------------------------- byte order

  /** Swapping the bytes of every word multiplies the sum by 256 modulo 65535. */
  lemma {:induction false} SwappedSum(data: seq<Byte>) returns (k: int)
    ensures 0x100 * WordSum(data, Big) == 0xffff * k + WordSum(data, Little)
    ensures WordSum(data, Big) == 0 <==> WordSum(data, Little) == 0
    decreases |data|
  {
    if data == [] {
      k := 0;
    } else {
      k := SwappedSum(Rest(data));
      WordSumStep(data, Big);
      WordSumStep(data, Little);
      k := k + data[0];
    }
  }

  function Swapped(w: Word16): Word16 {
    0x100 * (w % 0x100) + w / 0x100
  }

  lemma NormalOfSwap(n: Word16)
    ensures Normal(0x100 * n) == Swapped(n)
  {
    if n > 0 {
      NormalByCongruence(0x100 * n, Swapped(n), n / 0x100);
    }
  }

  lemma NormalSwaps(big: nat, little: nat, k: int)
    requires 0x100 * big == 0xffff * k + little && (big == 0 <==> little == 0)
    ensures Normal(little) == Swapped(Normal(big))
  {
    if big > 0 {
      NormalByCongruence(0x100 * big, little, k);
      var q := (big - 1) / 0xffff;
      NormalByCongruence(0x100 * big, 0x100 * Normal(big), 0x100 * q);
      NormalOfSwap(Normal(big));
    }
  }

  lemma StoredSwapped(n: Word16)
    ensures Stored(0xffff - Swapped(n), Little) == Stored(0xffff - n, Big)
  {
    var h, l := n / 0x100, n % 0x100;
    Halves(0xffff - n, 0xff - h, 0xff - l);
    Halves(0xffff - Swapped(n), 0xff - l, 0xff - h);
  }

  lemma Halves(w: Word16, h: Byte, l: Byte)
    requires w == 0x100 * h + l
    ensures w / 0x100 == h && w % 0x100 == l
  {
  }

  /** Either host computes the same two checksum bytes: the result is already in network order. */
  lemma ByteOrderIndependence(data: seq<Byte>)
    ensures Stored(Cksum(data, Little), Little) == Stored(Cksum(data, Big), Big)
  {
    var k := SwappedSum(data);
    NormalSwaps(WordSum(data, Big), WordSum(data, Little), k);
    StoredSwapped(Normal(WordSum(data, Big)));
  }

  // ---------------------------------------------------------------- order of words

  lemma {:induction false} TotalOfAppend(a: seq<Word16>, b: seq<Word16>)
    ensures Total(a + b) == Total(a) + Total(b)
  {
    if a == [] {
      assert a + b == b;
    } else {
      assert (a + b)[1..] == a[1..] + b;
      TotalOfAppend(a[1..], b);
    }
  }

  lemma TotalOfWordInside(pre: seq<Word16>, x: Word16, post: seq<Word16>)
    ensures Total(pre + ([x] + post)) == x + Total(pre + post)
  {
    TotalOfAppend(pre, [x] + post);
    TotalOfAppend(pre, post);
    assert ([x] + post)[1..] == post;
  }

  lemma WordInside(pre: seq<Word16>, x: Word16, post: seq<Word16>)
    ensures multiset(pre + ([x] + post)) == multiset{x} + multiset(pre + post)
  {
    assert multiset(pre + ([x] + post)) == multiset(pre) + multiset([x] + post);
    assert multiset([x] + post) == multiset{x} + multiset(post);
  }

  /** Taking out one word. */
  lemma WordTaken(s: seq<Word16>, j: nat)
    requires j < |s|
    ensures Total(s) == s[j] + Total(s[..j] + s[j + 1..])
    ensures multiset(s) == multiset{s[j]} + multiset(s[..j] + s[j + 1..])
  {
    hide Total;
    var pre, post := s[..j], s[j + 1..];
    WordInside(pre, s[j], post);
    TotalOfWordInside(pre, s[j], post);
    assert s == pre + ([s[j]] + post);
  }

  lemma {:induction false} TotalOfPermutation(a: seq<Word16>, b: seq<Word16>)
    requires multiset(a) == multiset(b)
    ensures Total(a) == Total(b)
  {
    hide Total;
    if a == [] {
      assert |multiset(b)| == 0;
    } else {
      assert a[0] in multiset(b);
      var j :| 0 <= j < |b| && b[j] == a[0];
      var c, d := a[..0] + a[1..], b[..j] + b[j + 1..];
      WordTaken(a, 0);
      WordTaken(b, j);
      SameRest(multiset(c), multiset(d), a[0]);
      TotalOfPermutation(c, d);
    }
  }

  lemma SameRest(m: multiset<Word16>, n: multiset<Word16>, x: Word16)
    requires multiset{x} + m == multiset{x} + n
    ensures m == n
  {
    assert m == multiset{x} + m - multiset{x};
  }

  /** Rearranging whole words leaves the checksum as it is. */
  lemma WordOrderIrrelevant(a: seq<Byte>, b: seq<Byte>, e: Endian)
    requires multiset(Words(a, e)) == multiset(Words(b, e))
    ensures Cksum(a, e) == Cksum(b, e)
  {
    TotalOfPermutation(Words(a, e), Words(b, e));
  }

  // ---------------------------------------------------------------- verification of a stored checksum

  /** `data` with the aligned word number `k` overwritten. */
  function SetWord(data: seq<Byte>, k: nat, w: Word16, e: Endian): (r: seq<Byte>)
    requires 2 * k + 1 < |data|
    ensures |r| == |data|
  {
    data[2 * k := Stored(w, e)[0]][2 * k + 1 := Stored(w, e)[1]]
  }

  function WordAt(data: seq<Byte>, k: nat, e: Endian): Word16
    requires 2 * k + 1 < |data|
  {
    Load(data[2 * k], data[2 * k + 1], e)
  }

  lemma LoadStored(w: Word16, e: Endian)
    ensures Load(Stored(w, e)[0], Stored(w, e)[1], e) == w
  {
  }

  lemma {:induction false} SumAfterSetWord(data: seq<Byte>, k: nat, w: Word16, e: Endian)
    requires 2 * k + 1 < |data|
    ensures WordSum(SetWord(data, k, w, e), e) == WordSum(data, e) - WordAt(data, k, e) + w
  {
    var r := SetWord(data, k, w, e);
    WordSumStep(data, e);
    WordSumStep(r, e);
    LoadStored(w, e);
    hide WordSum, Stored;
    if k == 0 {
      assert r[2..] == data[2..];
    } else {
      assert r[2..] == SetWord(data[2..], k - 1, w, e);
      SumAfterSetWord(data[2..], k - 1, w, e);
    }
  }

  /** A checksum is 0 exactly for a positive multiple of 65535. */
  lemma ZeroCksum(s: nat, m: int, r: nat)
    requires s == 0xffff * m + r && r < 0xffff
    ensures 0xffff - Normal(s) == 0 <==> s > 0 && r == 0
  {
    if s > 0 {
      if r == 0 {
        NormalByCongruence(s, 0xffff, m - 1);
      } else {
        NormalByCongruence(s, r, m);
      }
    }
  }

  /** The words that make a buffer verify when stored over a zeroed word `k`: the checksum itself,
      and its other representation when that is 0. */
  lemma StoredChecksumVerifies(data: seq<Byte>, k: nat, w: Word16, e: Endian)
    requires 2 * k + 1 < |data| && WordAt(data, k, e) == 0
    ensures Cksum(SetWord(data, k, w, e), e) == 0
       <==> (w == Cksum(data, e) || (Cksum(data, e) == 0 && w == 0xffff))
  {
    SumAfterSetWord(data, k, w, e);
    var s := WordSum(data, e);
    var q := if s == 0 then 0 else (s - 1) / 0xffff;
    var c := Cksum(data, e);
    if s > 0 {
      assert s - 1 == 0xffff * q + (s - 1) % 0xffff;
    }
    assert s + c == 0xffff * (q + 1);
    assert s + w == 0xffff * (q + 1) + (w - c);
    if w < c {
      ZeroCksum(s + w, q, w - c + 0xffff);
    } else if w == c + 0xffff {
      ZeroCksum(s + w, q + 2, 0);
    } else {
      ZeroCksum(s + w, q + 1, w - c);
    }
  }

  lemma {:induction false} PositiveSum(data: seq<Byte>, e: Endian)
    ensures WordSum(data, e) > 0 <==> exists j :: 0 <= j < |data| && data[j] != 0
    decreases |data|
  {
    if data != [] {
      PositiveSum(Rest(data), e);
      WordSumStep(data, e);
      if j :| 0 <= j < |data| && data[j] != 0 && j >= 2 {
        assert Rest(data)[j - 2] != 0;
      }
      if j :| 0 <= j < |Rest(data)| && Rest(data)[j] != 0 {
        assert data[j + 2] != 0;
      }
    }
  }

  /** Overwriting one word of a verifying buffer goes unnoticed exactly when the word keeps its
      value, or changes between the two zeros while some other byte is not 0. */
  lemma WordChangeUndetected(data: seq<Byte>, k: nat, w: Word16, e: Endian)
    requires 2 * k + 1 < |data| && Cksum(data, e) == 0
    ensures Cksum(SetWord(data, k, w, e), e) == 0
       <==> (w == WordAt(data, k, e)
         || (((w == 0xffff && WordAt(data, k, e) == 0) || (w == 0 && WordAt(data, k, e) == 0xffff))
             && exists j :: 0 <= j < |data| && j / 2 != k && data[j] != 0))
  {
    var v := WordAt(data, k, e);
    var s := WordSum(data, e);
    SumAfterSetWord(data, k, w, e);
    SumAfterSetWord(data, k, 0, e);
    ZeroCksum(s, s / 0xffff, s % 0xffff);
    var m := s / 0xffff;
    assert s - v + w == 0xffff * m + (w - v);
    if w == v {
    } else if w == v + 0xffff {
      ZeroCksum(s - v + w, m + 1, 0);
    } else if w == v - 0xffff {
      ZeroCksum(s - v + w, m - 1, 0);
    } else if w < v {
      ZeroCksum(s - v + w, m - 1, w - v + 0xffff);
    } else {
      ZeroCksum(s - v + w, m, w - v);
    }
    OtherBytes(data, k, e);
  }

  /** With word `k` zeroed the sum is positive exactly when some other byte is not 0. */
  lemma OtherBytes(data: seq<Byte>, k: nat, e: Endian)
    requires 2 * k + 1 < |data|
    ensures WordSum(SetWord(data, k, 0, e), e) > 0 <==> exists j :: 0 <= j < |data| && j / 2 != k && data[j] != 0
  {
    var blank := SetWord(data, k, 0, e);
    PositiveSum(blank, e);
    if j :| 0 <= j < |data| && j / 2 != k && data[j] != 0 {
      assert blank[j] == data[j];
    }
    if j :| 0 <= j < |blank| && blank[j] != 0 {
      assert j / 2 != k && data[j] == blank[j];
    }
  }
}
