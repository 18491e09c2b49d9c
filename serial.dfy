/** `formatSerial` (pkg/cert/common.go): a serial number as colon-separated pairs
    of lower-case hexadecimal digits of its minimal big-endian bytes, with "0" for
    zero. The source hex-encodes the bytes into the upper two thirds of its buffer
    and then appends the grouped digits to the front of the same buffer, reading
    ahead of where it writes; `FormatSerial` keeps that in-place scheme on an array. */
module SerialFormat {
  import opened Wrappers
  import opened Text
  import opened X509

  /** `big.Int.Bytes`: the minimal big-endian bytes, empty for zero. */
  function BigEndian(n: nat): (b: Bytes)
    ensures n == 0 <==> b == []
    ensures b != [] ==> b[0] != 0
  {
    if n == 0 then [] else BigEndian(n / 256) + [n % 256]
  }

  /** The number a big-endian byte string denotes. */
  function ValueOf(b: Bytes): nat
  {
    if b == [] then 0 else ValueOf(b[..|b| - 1]) * 256 + b[|b| - 1]
  }

  lemma {:induction false} BigEndianRoundTrip(n: nat)
    ensures ValueOf(BigEndian(n)) == n
  {
    if n > 0 {
      BigEndianRoundTrip(n / 256);
      var b := BigEndian(n);
      assert b[..|b| - 1] == BigEndian(n / 256);
    }
  }

  /** `encoding/hex` digits: lower case. */
  function HexDigit(d: nat): char
    requires d < 16
  {
    "0123456789abcdef"[d]
  }

  /** The two hexadecimal digits of one byte. */
  function HexPair(x: byte): string
  {
    [HexDigit(x / 16), HexDigit(x % 16)]
  }

  function HexPairs(b: Bytes): seq<string>
  {
    seq(|b|, k requires 0 <= k < |b| => HexPair(b[k]))
  }

  /** What `formatSerial` returns. */
  function SerialText(n: nat): string
  {
    if n == 0 then "0" else Join(HexPairs(BigEndian(n)), ":")
  }

  /** Each byte's pair followed by a colon: the buffer the source fills, before it
      drops the final colon. */
  function Grouped(b: Bytes): (g: string)
    ensures |g| == 3 * |b|
  {
    if b == [] then [] else HexPair(b[0]) + [':'] + Grouped(b[1..])
  }

  /** `hex.Encode`: the pairs run together. */
  function HexEncoded(b: Bytes): (h: string)
    ensures |h| == 2 * |b|
  {
    if b == [] then [] else HexPair(b[0]) + HexEncoded(b[1..])
  }

  lemma {:induction false} HexEncodedIndex(b: Bytes)
    ensures forall k :: 0 <= k < |b| ==> HexEncoded(b)[2 * k] == HexDigit(b[k] / 16)
    ensures forall k :: 0 <= k < |b| ==> HexEncoded(b)[2 * k + 1] == HexDigit(b[k] % 16)
  {
    if b != [] {
      HexEncodedIndex(b[1..]);
      var h := HexEncoded(b);
      assert forall k :: 1 <= k < |b| ==> h[2 * k] == HexEncoded(b[1..])[2 * (k - 1)];
      assert forall k :: 1 <= k < |b| ==> h[2 * k + 1] == HexEncoded(b[1..])[2 * (k - 1) + 1];
    }
  }

  lemma {:induction false} GroupedIndex(b: Bytes)
    ensures forall k :: 0 <= k < |b| ==> Grouped(b)[3 * k] == HexDigit(b[k] / 16)
    ensures forall k :: 0 <= k < |b| ==> Grouped(b)[3 * k + 1] == HexDigit(b[k] % 16)
    ensures forall k :: 0 <= k < |b| ==> Grouped(b)[3 * k + 2] == ':'
  {
    if b != [] {
      GroupedIndex(b[1..]);
      var g, t := Grouped(b), Grouped(b[1..]);
      assert g == HexPair(b[0]) + [':'] + t;
      forall k | 1 <= k < |b|
        ensures g[3 * k] == HexDigit(b[k] / 16) && g[3 * k + 1] == HexDigit(b[k] % 16) && g[3 * k + 2] == ':'
      {
        var i := k - 1;
        assert b[1..][i] == b[k];
        assert g[3 * k] == t[3 * i] && g[3 * k + 1] == t[3 * i + 1] && g[3 * k + 2] == t[3 * i + 2];
      }
    }
  }

  /** Dropping the last colon of the grouped digits gives the joined pairs. */
  lemma {:induction false} GroupedJoin(b: Bytes)
    requires b != []
    ensures Grouped(b) == Join(HexPairs(b), ":") + [':']
  {
    assert HexPairs(b)[0] == HexPair(b[0]);
    if |b| > 1 {
      GroupedJoin(b[1..]);
      assert HexPairs(b)[1..] == HexPairs(b[1..]);
    } else {
      assert b[1..] == [];
    }
  }

  /** `hex.Encode(buf[off..], b)`: writes the pairs of b from position off on and
      leaves the rest of the buffer, before and after them, alone. */
  method HexEncode(buf: array<char>, off: nat, b: Bytes)
    requires off + 2 * |b| <= buf.Length
    modifies buf
    ensures buf[off..off + 2 * |b|] == HexEncoded(b)
    ensures buf[..off] == old(buf[..off])
    ensures buf[off + 2 * |b|..] == old(buf[off + 2 * |b|..])
  {
    HexEncodedIndex(b);
    for k := 0 to |b|
      invariant forall j :: off <= j < off + 2 * k ==> buf[j] == HexEncoded(b)[j - off]
      invariant buf[..off] == old(buf[..off])
      invariant buf[off + 2 * |b|..] == old(buf[off + 2 * |b|..])
    {
      buf[off + 2 * k] := HexDigit(b[k] / 16);
      buf[off + 2 * k + 1] := HexDigit(b[k] % 16);
    }
  }

  /** The k-th group is the k-th pair of the encoding followed by a colon. */
  lemma GroupedFromHex(b: Bytes, k: nat)
    requires k < |b|
    ensures Grouped(b)[3 * k] == HexEncoded(b)[2 * k]
    ensures Grouped(b)[3 * k + 1] == HexEncoded(b)[2 * k + 1]
    ensures Grouped(b)[3 * k + 2] == ':'
  {
    GroupedIndex(b);
    HexEncodedIndex(b);
  }

  /** One pass of the grouping loop on a snapshot of the buffer: the prefix of
      `g` grows by one group and the hex digits above the write position stay. */
  lemma GroupStep(before: seq<char>, after: seq<char>, g: string, h: string, n: nat, k: nat)
    requires |before| == |after| == |g| == 3 * n && |h| == 2 * n && k < n
    requires forall j :: 0 <= j < 3 * k ==> before[j] == g[j]
    requires forall j :: n + 2 * k <= j < 3 * n ==> before[j] == h[j - n]
    requires g[3 * k] == h[2 * k] && g[3 * k + 1] == h[2 * k + 1] && g[3 * k + 2] == ':'
    requires after == before[3 * k := before[n + 2 * k]][3 * k + 1 := before[n + 2 * k + 1]][3 * k + 2 := ':']
    ensures forall j :: 0 <= j < 3 * (k + 1) ==> after[j] == g[j]
    ensures forall j :: n + 2 * (k + 1) <= j < 3 * n ==> after[j] == h[j - n]
  {
  }

  /** The loop of `formatSerial`: with the hex digits in the upper two thirds of
      the buffer, append each pair and a colon to the front of the same buffer.
      The writes for pair k land below position n + 2k + 2, so they never reach a
      digit the loop has not read yet. */
  method GroupInPlace(buf: array<char>, b: Bytes)
    requires buf.Length == 3 * |b|
    requires buf[|b|..] == HexEncoded(b)
    modifies buf
    ensures buf[..] == Grouped(b)
  {
    var n := |b|;
    ghost var g, h := Grouped(b), HexEncoded(b);
    assert forall j :: n <= j < 3 * n ==> buf[..][j] == buf[n..][j - n];
    for k := 0 to n
      invariant forall j :: 0 <= j < 3 * k ==> buf[..][j] == g[j]
      invariant forall j :: n + 2 * k <= j < 3 * n ==> buf[..][j] == h[j - n]
    {
      GroupedFromHex(b, k);
      ghost var before := buf[..];
      var hi, lo := buf[n + 2 * k], buf[n + 2 * k + 1];
      buf[3 * k] := hi;
      buf[3 * k + 1] := lo;
      buf[3 * k + 2] := ':';
      assert buf[..] == before[3 * k := hi][3 * k + 1 := lo][3 * k + 2 := ':'];
      GroupStep(before, buf[..], g, h, n, k);
    }
    assert buf[..] == g;
  }

  /** `formatSerial`. */
  method FormatSerial(serial: nat) returns (s: string)
    ensures s == SerialText(serial)
  {
    if serial == 0 {
      return "0";
    }
    var b := BigEndian(serial);
    var n := |b|;
    var buf := new char[3 * n];
    HexEncode(buf, n, b);
    assert buf[n..] == buf[n..n + 2 * n];
    GroupInPlace(buf, b);
    GroupedText(serial);
    s := buf[..3 * n - 1];
    assert s == buf[..][..3 * n - 1];
  }

  /** Dropping the final colon of the grouped digits gives the text. */
  lemma GroupedText(n: nat)
    requires n > 0
    ensures Grouped(BigEndian(n))[..3 * |BigEndian(n)| - 1] == SerialText(n)
  {
    GroupedJoin(BigEndian(n));
  }

  // ---------------------------------------------------------------------------
  // Reading the text back

  function HexValue(c: char): nat
  {
    if '0' <= c <= '9' then c as int - '0' as int
    else if 'a' <= c <= 'f' then c as int - 'a' as int + 10
    else 0
  }

  predicate IsHexPair(p: string)
  {
    |p| == 2 && forall i :: 0 <= i < 2 ==> p[i] in "0123456789abcdef"
  }

  function PairByte(p: string): byte
    requires IsHexPair(p)
  {
    HexValue(p[0]) * 16 + HexValue(p[1])
  }

  function PairBytes(parts: seq<string>): Bytes
    requires forall i :: 0 <= i < |parts| ==> IsHexPair(parts[i])
  {
    seq(|parts|, i requires 0 <= i < |parts| => PairByte(parts[i]))
  }

  /** The inverse of `formatSerial`: "0", or colon-separated lower-case hex pairs. */
  function ParseSerial(s: string): Option<nat>
  {
    if s == "0" then Some(0)
    else
      var parts := Split(s, ':');
      if forall i :: 0 <= i < |parts| ==> IsHexPair(parts[i]) then Some(ValueOf(PairBytes(parts)))
      else None
  }

  lemma HexPairRoundTrip(x: byte)
    ensures IsHexPair(HexPair(x)) && PairByte(HexPair(x)) == x
  {
    var hi, lo := x / 16, x % 16;
    assert HexValue(HexDigit(hi)) == hi;
    assert HexValue(HexDigit(lo)) == lo;
  }

  /** Reading back the text of any serial number gives the number: the format is
      lossless, so two serials print alike only when they are equal. */
  lemma SerialRoundTrip(n: nat)
    ensures ParseSerial(SerialText(n)) == Some(n)
  {
    if n > 0 {
      var b := BigEndian(n);
      var pairs := HexPairs(b);
      PairsRoundTrip(b);
      SplitJoin(pairs, ':');
      BigEndianRoundTrip(n);
      SerialTextShape(n);
      assert SerialText(n) != "0";
    }
  }

  /** Each pair of the text is well formed and reads back as its byte. */
  lemma PairsRoundTrip(b: Bytes)
    ensures forall i :: 0 <= i < |HexPairs(b)| ==> IsHexPair(HexPairs(b)[i])
    ensures PairBytes(HexPairs(b)) == b
    ensures forall i :: 0 <= i < |HexPairs(b)| ==> ':' !in HexPairs(b)[i]
  {
    var pairs := HexPairs(b);
    forall i | 0 <= i < |pairs| ensures IsHexPair(pairs[i]) && PairByte(pairs[i]) == b[i] && ':' !in pairs[i] {
      HexPairRoundTrip(b[i]);
    }
  }

  /** The text has 3k - 1 characters for a k-byte serial, and never starts with a
      "00" pair: the bytes are minimal. */
  lemma SerialTextShape(n: nat)
    requires n > 0
    ensures |SerialText(n)| == 3 * |BigEndian(n)| - 1
    ensures SerialText(n)[..2] != "00"
  {
    var b := BigEndian(n);
    GroupedJoin(b);
    GroupedIndex(b);
    assert SerialText(n)[..2] == HexPair(b[0]);
    HexPairRoundTrip(b[0]);
    assert PairByte("00") == 0;
  }
}
