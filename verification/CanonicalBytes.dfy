/** Canonical serialization: little-endian integers, one-byte booleans, length-prefixed text; the
    append-only writer and the reader whose first failure sticks. */
module CanonicalBytes {
  import opened Bytes

  datatype ReadError = InvalidArgument | LimitExceeded | TrailingGarbage

  /** What reading a value from the front of some bytes yields. */
  datatype Parsed<+T> = Got(value: T, rest: seq<Byte>) | Stuck(error: ReadError)

  // ---------------------------------------------------------------------
  // The grammar
  // ---------------------------------------------------------------------

  function GetU(s: seq<Byte>, n: nat): Parsed<nat> {
    if |s| < n then Stuck(InvalidArgument) else Got(GetLE(s[..n]), s[n..])
  }

  function PutBool(b: bool): seq<Byte> { PutLE(if b then 1 else 0, 1) }

  function GetBool(s: seq<Byte>): Parsed<bool> {
    match GetU(s, 1)
    case Stuck(e) => Stuck(e)
    case Got(v, rest) => if v > 1 then Stuck(InvalidArgument) else Got(v == 1, rest)
  }

  /** Characters that are single bytes. */
  predicate Narrow(text: string) {
    forall i :: 0 <= i < |text| ==> text[i] as int < 256
  }

  function CharBytes(text: string): (bytes: seq<Byte>)
    ensures |bytes| == |text|
  {
    seq(|text|, i requires 0 <= i < |text| => ToByte(text[i] as int % 256))
  }

  function Chars(bytes: seq<Byte>): (text: string)
    ensures |text| == |bytes|
  {
    seq(|bytes|, i requires 0 <= i < |bytes| => FromByte(bytes[i]) as char)
  }

  function PutText(text: string): seq<Byte> {
    PutLE(|text|, 4) + CharBytes(text)
  }

  /** The declared length is checked against the bound before anything is taken. */
  function GetText(s: seq<Byte>, max: nat): Parsed<string> {
    match GetU(s, 4)
    case Stuck(e) => Stuck(e)
    case Got(length, rest) =>
      if length > max then Stuck(LimitExceeded)
      else if |rest| < length then Stuck(InvalidArgument)
      else Got(Chars(rest[..length]), rest[length..])
  }

  // ---------------------------------------------------------------------
  // Reading takes exactly what writing puts
  // ---------------------------------------------------------------------

  lemma UExact(s: seq<Byte>, n: nat, v: nat, rest: seq<Byte>)
    ensures GetU(s, n) == Got(v, rest) <==> v < Pow256(n) && s == PutLE(v, n) + rest
  {
    hide PutLE, GetLE, Pow256;
    if GetU(s, n) == Got(v, rest) {
      PutGet(s[..n]);
      assert s == s[..n] + s[n..];
    }
    if v < Pow256(n) && s == PutLE(v, n) + rest {
      GetPut(v, n);
      assert s[..n] == PutLE(v, n) && s[n..] == rest;
    }
  }

  lemma ByteRange()
    ensures Pow256(1) == 256 && Pow256(4) == 0x1_0000_0000 && Pow256(8) == 0x1_0000_0000_0000_0000
  {
    assert Pow256(2) == 0x1_0000;
    assert Pow256(4) == 0x1_0000 * 0x1_0000;
    assert Pow256(6) == 0x1_0000 * 0x1_0000 * 0x1_0000;
  }

  lemma BoolExact(s: seq<Byte>, b: bool, rest: seq<Byte>)
    ensures GetBool(s) == Got(b, rest) <==> s == PutBool(b) + rest
  {
    hide PutLE, GetU;
    ByteRange();
    UExact(s, 1, if b then 1 else 0, rest);
  }

  lemma CharsExact(bytes: seq<Byte>, text: string)
    ensures Chars(bytes) == text <==> Narrow(text) && bytes == CharBytes(text)
  {
    hide ToByte, FromByte;
    if Chars(bytes) == text {
      forall i | 0 <= i < |bytes| ensures text[i] as int < 256 && bytes[i] == CharBytes(text)[i] {
        ToFrom(bytes[i]);
        assert text[i] == FromByte(bytes[i]) as char;
      }
    }
    if Narrow(text) && bytes == CharBytes(text) {
      forall i | 0 <= i < |text| ensures Chars(bytes)[i] == text[i] {
        assert text[i] as int < 256;
        FromTo(text[i] as int);
      }
    }
  }

  lemma TextExact(s: seq<Byte>, max: nat, text: string, rest: seq<Byte>)
    requires max < 0x1_0000_0000
    ensures GetText(s, max) == Got(text, rest) <==> |text| <= max && Narrow(text) && s == PutText(text) + rest
  {
    hide PutLE, GetU, CharBytes, Chars, Narrow;
    ByteRange();
    if GetText(s, max) == Got(text, rest) {
      var length, after := GetU(s, 4).value, GetU(s, 4).rest;
      UExact(s, 4, length, after);
      CharsExact(after[..length], text);
      assert after == after[..length] + after[length..];
    }
    if |text| <= max && Narrow(text) && s == PutText(text) + rest {
      var after := CharBytes(text) + rest;
      assert s == PutLE(|text|, 4) + after;
      UExact(s, 4, |text|, after);
      assert after[..|text|] == CharBytes(text) && after[|text|..] == rest;
      CharsExact(after[..|text|], text);
    }
  }

  // ---------------------------------------------------------------------
  // The code
  // ---------------------------------------------------------------------

  class CanonicalWriter {
    var buffer: seq<Byte>

    constructor ()
      ensures buffer == []
    {
      buffer := [];
    }

    /** Any of the fixed-width integers: `n` bytes, lowest first. */
    method Unsigned(value: nat, n: nat)
      modifies this
      ensures buffer == old(buffer) + PutLE(value, n)
    {
      var rest := value;
      for i := 0 to n
        invariant buffer + PutLE(rest, n - i) == old(buffer) + PutLE(value, n)
      {
        var low := ToByte(rest % 256);
        assert buffer + PutLE(rest, n - i) == (buffer + [low]) + PutLE(rest / 256, n - i - 1);
        buffer := buffer + [low];
        rest := rest / 256;
      }
      assert buffer + PutLE(rest, 0) == buffer;
    }

    method Boolean(value: bool)
      modifies this
      ensures buffer == old(buffer) + PutBool(value)
    {
      Unsigned(if value then 1 else 0, 1);
    }

    method Text(value: string)
      modifies this
      ensures buffer == old(buffer) + PutText(value)
    {
      Unsigned(|value|, 4);
      ghost var prefix := buffer;
      for i := 0 to |value|
        invariant buffer == prefix + CharBytes(value)[..i]
      {
        assert CharBytes(value)[..i + 1] == CharBytes(value)[..i] + [CharBytes(value)[i]];
        buffer := buffer + [ToByte(value[i] as int % 256)];
      }
      assert CharBytes(value)[..|value|] == CharBytes(value);
      assert old(buffer) + PutText(value) == (old(buffer) + PutLE(|value|, 4)) + CharBytes(value);
    }
  }

  class CanonicalReader {
    const input: seq<Byte>
    var offset: nat
    var ok: bool
    var error: ReadError

    ghost predicate Valid()
      reads this
    {
      offset <= |input|
    }

    /** What is still to be read. */
    function Rest(): seq<Byte>
      requires Valid()
      reads this
    {
      input[offset..]
    }

    /** A poisoned reader stays as it is. */
    twostate predicate Stays()
      reads this
    {
      !old(ok) ==> !ok && error == old(error)
    }

    constructor (input: seq<Byte>)
      ensures Valid() && ok && Rest() == input && this.input == input
    {
      this.input := input;
      offset, ok, error := 0, true, InvalidArgument;
    }

    /** The first failure wins. */
    method Poison(e: ReadError)
      modifies this
      ensures offset == old(offset) && !ok && error == if old(ok) then e else old(error)
    {
      if ok {
        ok, error := false, e;
      }
    }

    method Require(count: nat) returns (enough: bool)
      requires Valid()
      modifies this
      ensures Valid() && offset == old(offset) && Stays()
      ensures enough <==> old(ok) && count <= |old(Rest())|
      ensures enough ==> ok
      ensures old(ok) && !enough ==> !ok && error == InvalidArgument
    {
      if !ok { return false; }
      if count > |input| - offset {
        Poison(InvalidArgument);
        return false;
      }
      enough := true;
    }

    method U8() returns (value: nat)
      requires Valid()
      modifies this
      ensures Valid() && Stays() && value < 256
      ensures !old(ok) ==> value == 0
      ensures old(ok) ==>
        if old(Rest()) == [] then !ok && error == InvalidArgument && value == 0
        else ok && value == FromByte(old(Rest())[0]) && Rest() == old(Rest())[1..]
    {
      var enough := Require(1);
      if !enough { return 0; }
      value := FromByte(input[offset]);
      offset := offset + 1;
    }

    /** Any of the fixed-width integers, one byte at a time. */
    method Unsigned(n: nat) returns (value: nat)
      requires Valid()
      modifies this
      ensures Valid() && Stays()
      ensures old(ok) && ok ==> GetU(old(Rest()), n) == Got(value, Rest())
      ensures old(ok) && !ok ==> GetU(old(Rest()), n) == Stuck(error)
    {
      hide FromByte;
      ghost var s := Rest();
      ghost var wasOk := ok;
      value := 0;
      var scale := 1;
      for i := 0 to n
        invariant Valid() && Stays()
        invariant wasOk && ok ==> i <= |s| && Rest() == s[i..] && value == GetLE(s[..i]) && scale == Pow256(i)
        invariant wasOk && !ok ==> |s| < n && error == InvalidArgument
        invariant scale > 0
      {
        var b := U8();
        if wasOk && ok {
          NextByte(s, i);
        }
        value := value + b * scale;
        scale := 256 * scale;
      }
    }

    method Boolean() returns (value: bool)
      requires Valid()
      modifies this
      ensures Valid() && Stays()
      ensures old(ok) && ok ==> GetBool(old(Rest())) == Got(value, Rest())
      ensures old(ok) && !ok ==> GetBool(old(Rest())) == Stuck(error)
    {
      hide GetU;
      var raw := Unsigned(1);
      if ok && raw > 1 { Poison(InvalidArgument); }
      value := raw == 1;
    }

    /** A length-prefixed string; the bound applies before anything is taken. */
    method Text(max: nat) returns (value: string)
      requires Valid()
      modifies this
      ensures Valid() && Stays()
      ensures old(ok) && ok ==> GetText(old(Rest()), max) == Got(value, Rest())
      ensures old(ok) && !ok ==> GetText(old(Rest()), max) == Stuck(error)
    {
      hide GetU, Chars;
      var length := Unsigned(4);
      if !ok { return ""; }
      if length > max {
        Poison(LimitExceeded);
        return "";
      }
      var enough := Require(length);
      if !enough { return ""; }
      assert input[offset..][..length] == input[offset..offset + length];
      value := Chars(input[offset..offset + length]);
      assert input[offset..][length..] == input[offset + length..];
      offset := offset + length;
    }

    method RequireEnd()
      requires Valid()
      modifies this
      ensures Valid() && Stays()
      ensures old(ok) ==> if old(Rest()) == [] then ok else !ok && error == TrailingGarbage
    {
      if ok && offset != |input| { Poison(TrailingGarbage); }
    }
  }

  lemma Spread(low: nat, b: nat, p: nat)
    ensures 256 * (low + b * p) == 256 * low + b * (256 * p)
  {
  }

  lemma {:induction false} LastByte(s: seq<Byte>)
    requires s != []
    ensures var n := |s| - 1; GetLE(s) == GetLE(s[..n]) + FromByte(s[n]) * Pow256(n)
  {
    hide FromByte;
    var n := |s| - 1;
    if n > 0 {
      LastByte(s[1..]);
      assert s[1..][..n - 1] == s[1..n] && s[..n][1..] == s[1..n];
      Spread(GetLE(s[1..n]), FromByte(s[n]), Pow256(n - 1));
    }
  }

  lemma NextByte(s: seq<Byte>, i: nat)
    requires i < |s|
    ensures GetLE(s[..i + 1]) == GetLE(s[..i]) + FromByte(s[i]) * Pow256(i)
  {
    hide FromByte, GetLE;
    LastByte(s[..i + 1]);
    assert s[..i + 1][..i] == s[..i];
  }
}
