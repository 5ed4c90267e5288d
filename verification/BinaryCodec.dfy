/** The binary encoder and decoder of src/utils/binary_encoder.h and binary_decoder.h: bytes, little-endian four-byte
    numbers, and strings with a one-byte or a five-byte length. The encoder refuses values that do not fit, the decoder
    refuses data that ends too early; what the encoder wrote, the decoder takes back from the front of the data, and
    leaves what follows. */
module BinaryCodec {
  import opened Sentences
  import opened Sequences
  import opened Utf8

  const LIMIT32 := 0x1_0000_0000

  function Number(n: nat): (r: Bytes)
    requires n < LIMIT32
    ensures |r| == 4
  {
    [n % 0x100, n / 0x100 % 0x100, n / 0x1_0000 % 0x100, n / 0x100_0000]
  }

  function Text(s: Bytes): Bytes
    requires |s| < LIMIT32
  {
    if |s| < 255 then [|s|] + s else [255] + Number(|s|) + s
  }

  function TakeByte(data: Bytes): Option<(nat, Bytes)> {
    if data == [] then None else Some((data[0], data[1..]))
  }

  function TakeNumber(data: Bytes): Option<(nat, Bytes)> {
    if |data| < 4 then None
    else
      var b0: int, b1: int, b2: int, b3: int := data[0], data[1], data[2], data[3];
      Some((b0 + 0x100 * b1 + 0x1_0000 * b2 + 0x100_0000 * b3, data[4..]))
  }

  function TakeBytes(data: Bytes, n: nat): Option<(Bytes, Bytes)> {
    if |data| < n then None else Some((data[..n], data[n..]))
  }

  function TakeText(data: Bytes): Option<(Bytes, Bytes)> {
    match TakeByte(data)
    case None => None
    case Some((n, rest)) =>
      if n < 255 then TakeBytes(rest, n)
      else match TakeNumber(rest)
        case None => None
        case Some((m, more)) => TakeBytes(more, m)
  }

  lemma {:induction false} Digits256(n: nat)
    ensures n == n % 0x100 + 0x100 * (n / 0x100 % 0x100) + 0x1_0000 * (n / 0x1_0000 % 0x100) +
            0x100_0000 * (n / 0x100_0000)
  {
    var q, p := n / 0x100, n / 0x1_0000;
    assert n == 0x100 * q + n % 0x100;
    assert q == 0x100 * (q / 0x100) + q % 0x100;
    assert n == 0x1_0000 * (q / 0x100) + (0x100 * (q % 0x100) + n % 0x100);
    assert p == q / 0x100;
    assert p == 0x100 * (p / 0x100) + p % 0x100;
    assert n == 0x100_0000 * (p / 0x100) + (0x1_0000 * (p % 0x100) + 0x100 * (q % 0x100) + n % 0x100);
    assert n / 0x100_0000 == p / 0x100;
  }

  /** Numbers are stored with their lowest byte first. */
  lemma {:induction false} KnownNumber()
    ensures Number(0x0A0B_0C0D) == [0x0D, 0x0C, 0x0B, 0x0A]
  {
  }

  lemma {:induction false} NumberRoundTrip(n: nat, rest: Bytes)
    requires n < LIMIT32
    ensures TakeNumber(Number(n) + rest) == Some((n, rest))
  {
    Digits256(n);
    assert (Number(n) + rest)[4..] == rest;
  }

  lemma {:induction false} BytesRoundTrip(s: Bytes, rest: Bytes)
    ensures TakeBytes(s + rest, |s|) == Some((s, rest))
  {
  }

  /** Strings come back whole, also those of 255 bytes and more. */
  lemma {:induction false} TextRoundTrip(s: Bytes, rest: Bytes)
    requires |s| < LIMIT32
    ensures TakeText(Text(s) + rest) == Some((s, rest))
  {
    BytesRoundTrip(s, rest);
    if |s| < 255 {
      Assoc([|s|], s, rest);
      Uncons(|s|, s + rest);
    } else {
      NumberRoundTrip(|s|, s + rest);
      Assoc([255], Number(|s|) + s, rest);
      Assoc(Number(|s|), s, rest);
      Uncons(255, Number(|s|) + (s + rest));
      assert Text(s) + rest == [255] + (Number(|s|) + (s + rest)) by { Assoc([255], Number(|s|), s); }
    }
  }

  /** Every four bytes are a number. */
  lemma {:induction false} NumberBack(data: Bytes)
    requires |data| >= 4
    ensures TakeNumber(data).value.0 < LIMIT32
    ensures data == Number(TakeNumber(data).value.0) + TakeNumber(data).value.1
  {
    var b0: int, b1: int, b2: int, b3: int := data[0], data[1], data[2], data[3];
    BytesOf(b0, b1, b2, b3);
    assert data == [data[0], data[1], data[2], data[3]] + data[4..];
  }

  lemma {:induction false} BytesOf(b0: byte, b1: byte, b2: byte, b3: byte)
    ensures var n := b0 as int + 0x100 * b1 + 0x1_0000 * b2 + 0x100_0000 * b3;
            0 <= n < LIMIT32 && Number(n) == [b0, b1, b2, b3]
  {
    var q3: int := b3;
    var q2 := b2 as int + 0x100 * q3;
    var q1 := b1 as int + 0x100 * q2;
    var n := b0 as int + 0x100 * q1;
    assert n / 0x100 == q1 && q1 / 0x100 == q2 && q2 / 0x100 == q3;
    assert n / 0x1_0000 == q2 && n / 0x100_0000 == q3;
  }

  /** The codings of a string: the one that is written, and for a short string also the long one. */
  ghost predicate Codes(d: Bytes, s: Bytes) {
    |s| < LIMIT32 && (d == Text(s) || d == [255] + (Number(|s|) + s))
  }

  /** What is taken as a string is a coding of it. */
  lemma {:induction false} TextBack(data: Bytes) returns (d: Bytes)
    requires TakeText(data).Some?
    ensures var (s, rest) := TakeText(data).value; data == d + rest && Codes(d, s)
  {
    var (s, rest) := TakeText(data).value;
    var n, tail := data[0], data[1..];
    assert data == [n] + tail;
    if n < 255 {
      d := [n] + s;
      assert tail == s + rest;
      Assoc([n], s, rest);
    } else {
      NumberBack(tail);
      var more := tail[4..];
      d := [255] + (Number(|s|) + s);
      assert more == s + rest;
      Assoc(Number(|s|), s, rest);
      Assoc([255], Number(|s|) + s, rest);
    }
  }

  /** Each coding is taken. */
  lemma {:induction false} CodesTaken(d: Bytes, s: Bytes, rest: Bytes)
    requires Codes(d, s)
    ensures TakeText(d + rest) == Some((s, rest))
  {
    if d == Text(s) {
      TextRoundTrip(s, rest);
    } else {
      NumberRoundTrip(|s|, s + rest);
      Assoc([255], Number(|s|) + s, rest);
      Assoc(Number(|s|), s, rest);
      Uncons(255, Number(|s|) + (s + rest));
      BytesRoundTrip(s, rest);
    }
  }

  lemma {:induction false} Uncons(b: byte, rest: Bytes)
    ensures ([b] + rest)[0] == b && ([b] + rest)[1..] == rest
  {
  }

  class BinaryEncoder {
    var data: Bytes

    constructor ()
      ensures data == []
    {
      data := [];
    }

    /** Refuses a value that does not fit in one byte. */
    method Add1B(val: nat) returns (ok: bool)
      modifies this
      ensures ok == (val < 0x100)
      ensures data == if val < 0x100 then old(data) + [val] else old(data)
    {
      if val >= 0x100 { return false; }
      data := data + [val];
      return true;
    }

    method Add4B(val: nat)
      requires val < LIMIT32
      modifies this
      ensures data == old(data) + Number(val)
    {
      data := data + Number(val);
    }

    method AddStr(str: Bytes)
      requires |str| < LIMIT32
      modifies this
      ensures data == old(data) + Text(str)
    {
      ghost var before := data;
      var _ := Add1B(if |str| < 255 then |str| else 255);
      if |str| < 255 {
        Assoc(before, [|str|], str);
      } else {
        Add4B(|str|);
        Assoc(before, [255], Number(|str|));
        Assoc(before, [255] + Number(|str|), str);
      }
      data := data + str;
    }
  }

  /** The decoder: `data` is what is left to read. A failed read is None, where the source throws. */
  class BinaryDecoder {
    var data: Bytes

    constructor (data: Bytes)
      ensures this.data == data
    {
      this.data := data;
    }

    method Next1B() returns (r: Option<nat>)
      modifies this
      ensures match TakeByte(old(data))
              case Some((n, rest)) => r == Some(n) && data == rest
              case None => r == None
    {
      if |data| < 1 { return None; }
      r := Some(data[0]);
      data := data[1..];
    }

    method Next4B() returns (r: Option<nat>)
      modifies this
      ensures match TakeNumber(old(data))
              case Some((n, rest)) => r == Some(n) && data == rest
              case None => r == None
    {
      if |data| < 4 { return None; }
      r := Some(TakeNumber(data).value.0);
      data := data[4..];
    }

    method NextStr() returns (r: Option<Bytes>)
      modifies this
      ensures match TakeText(old(data))
              case Some((s, rest)) => r == Some(s) && data == rest
              case None => r == None
    {
      var len := Next1B();
      if len.None? { return None; }
      if len.value == 255 {
        len := Next4B();
        if len.None? { return None; }
      }
      if |data| < len.value { return None; }
      r := Some(data[..len.value]);
      data := data[len.value..];
    }
  }
}
