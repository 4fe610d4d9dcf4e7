/** The mutable state behind the codecs: a read cursor and an append-only output buffer. */
module Buffers {
  import opened Bytes

  /** `r` reports the outcome of reading `parsed`, and `rest` is what is left unread. */
  ghost predicate Reads<T(!new)>(parsed: Option<Split<T>>, r: Result<T>, rest: bytes) {
    match parsed
    case None => r.Err?
    case Some(split) => r == Ok(split.value) && rest == split.rest
  }

  /** A loop has read `front`; what the rest of its run reads completes what the whole run reads. */
  ghost predicate Continues<T(!new)>(whole: Option<Split<seq<T>>>, front: seq<T>, remaining: Option<Split<seq<T>>>) {
    match remaining
    case None => whole.None?
    case Some(split) => whole == Some(Split(front + split.value, split.rest))
  }

  lemma ContinuesStart<T(!new)>(whole: Option<Split<seq<T>>>)
    ensures Continues(whole, [], whole)
  {
    if whole.Some? {
      assert [] + whole.value.value == whole.value.value;
    }
  }

  lemma ContinuesStep<T(!new)>(
    get: bytes -> Option<Split<T>>, whole: Option<Split<seq<T>>>, front: seq<T>, count: nat, b: bytes)
    requires Continues(whole, front, GetMany(get, count, b))
    ensures count > 0 && get(b).None? ==> whole.None?
    ensures count > 0 && get(b).Some? ==>
              Continues(whole, front + [get(b).value.value], GetMany(get, count - 1, get(b).value.rest))
    ensures count == 0 ==> whole == Some(Split(front, b))
  {
    if count == 0 {
      assert front + [] == front;
    } else if get(b).Some? {
      var tail := GetMany(get, count - 1, get(b).value.rest);
      if tail.Some? {
        assert front + ([get(b).value.value] + tail.value.value) == (front + [get(b).value.value]) + tail.value.value;
      }
    }
  }

  /** A position in a received byte string.  Every method reads what the like-named `Get` function
      reads from the unread bytes; a refused read may still have moved past an earlier field. */
  class Cursor {
    const input: bytes
    var offset: nat

    ghost predicate Valid()
      reads this
    {
      offset <= |input|
    }

    ghost function Rest(): bytes
      reads this
      requires Valid()
    {
      input[offset..]
    }

    constructor (input: bytes)
      ensures Valid() && this.input == input && Rest() == input
    {
      this.input, offset := input, 0;
    }

    method Take(count: nat) returns (r: Result<bytes>)
      requires Valid()
      modifies this`offset
      ensures Valid() && Reads(GetRaw(count, old(Rest())), r, Rest())
      ensures r.Err? ==> offset == old(offset)
    {
      if count > |input| - offset {
        return Err;
      }
      assert input[offset..][..count] == input[offset..offset + count];
      assert input[offset..][count..] == input[offset + count..];
      r := Ok(input[offset..offset + count]);
      offset := offset + count;
    }

    method U8() returns (r: Result<byte>)
      requires Valid()
      modifies this`offset
      ensures Valid() && Reads(GetU8(old(Rest())), r, Rest())
    {
      var raw :- Take(1);
      r := Ok(raw[0]);
    }

    method U16() returns (r: Result<u16>)
      requires Valid()
      modifies this`offset
      ensures Valid() && Reads(GetU16(old(Rest())), r, Rest())
    {
      var raw :- Take(2);
      Widths();
      ToFromBE(raw);
      r := Ok(FromBE(raw));
    }

    method U32() returns (r: Result<u32>)
      requires Valid()
      modifies this`offset
      ensures Valid() && Reads(GetU32(old(Rest())), r, Rest())
    {
      var raw :- Take(4);
      Widths();
      ToFromBE(raw);
      r := Ok(FromBE(raw));
    }

    method U64() returns (r: Result<u64>)
      requires Valid()
      modifies this`offset
      ensures Valid() && Reads(GetU64(old(Rest())), r, Rest())
    {
      var raw :- Take(8);
      Widths();
      ToFromBE(raw);
      r := Ok(FromBE(raw));
    }

    method I64() returns (r: Result<i64>)
      requires Valid()
      modifies this`offset
      ensures Valid() && Reads(GetI64(old(Rest())), r, Rest())
    {
      var raw :- U64();
      var n: int := raw;
      r := Ok(if n >= 0x8000_0000_0000_0000 then n - 0x1_0000_0000_0000_0000 else n);
    }

    method Array16() returns (r: Result<Array16>)
      requires Valid()
      modifies this`offset
      ensures Valid() && Reads(GetArray16(old(Rest())), r, Rest())
    {
      var raw :- Take(16);
      r := Ok(raw);
    }

    method Array32() returns (r: Result<Array32>)
      requires Valid()
      modifies this`offset
      ensures Valid() && Reads(GetArray32(old(Rest())), r, Rest())
    {
      var raw :- Take(32);
      r := Ok(raw);
    }

    method BoundedString(limit: nat) returns (r: Result<Text>)
      requires Valid()
      modifies this`offset
      ensures Valid() && Reads(GetTextUpTo(limit, old(Rest())), r, Rest())
    {
      var length :- U16();
      if length > limit {
        return Err;
      }
      var raw :- Take(length);
      r := if IsUtf8(raw) then Ok(raw) else Err;
    }

    method IsEmpty() returns (empty: bool)
      requires Valid()
      ensures empty <==> Rest() == []
    {
      empty := offset == |input|;
    }
  }

  /** An output buffer.  A method that writes a field says what the buffer followed by any `rest`
      now is; such contracts chain without regard to how the fields nest. */
  class Encoder {
    var out: bytes

    constructor ()
      ensures out == []
    {
      out := [];
    }

    method Raw(value: bytes)
      modifies this
      ensures forall rest {:trigger out + rest} :: out + rest == old(out) + PutRaw(value, rest)
    {
      out := out + value;
      assert forall rest :: (old(out) + value) + rest == old(out) + (value + rest);
    }

    method U8(value: byte)
      modifies this
      ensures forall rest {:trigger out + rest} :: out + rest == old(out) + PutU8(value, rest)
    {
      Raw([value]);
    }

    method U16(value: u16)
      modifies this
      ensures forall rest {:trigger out + rest} :: out + rest == old(out) + PutU16(value, rest)
    {
      Raw(ToBE(2, value));
    }

    method U32(value: u32)
      modifies this
      ensures forall rest {:trigger out + rest} :: out + rest == old(out) + PutU32(value, rest)
    {
      Raw(ToBE(4, value));
    }

    method U64(value: u64)
      modifies this
      ensures forall rest {:trigger out + rest} :: out + rest == old(out) + PutU64(value, rest)
    {
      Raw(ToBE(8, value));
    }

    method I32(value: i32)
      modifies this
      ensures forall rest {:trigger out + rest} :: out + rest == old(out) + PutI32(value, rest)
    {
      U32(if value < 0 then value + 0x1_0000_0000 else value);
    }

    method I64(value: i64)
      modifies this
      ensures forall rest {:trigger out + rest} :: out + rest == old(out) + PutI64(value, rest)
    {
      U64(if value < 0 then value + 0x1_0000_0000_0000_0000 else value);
    }

    method Bool(value: bool)
      modifies this
      ensures forall rest {:trigger out + rest} :: out + rest == old(out) + PutBool(value, rest)
    {
      U8(if value then 1 else 0);
    }

    /** A four-byte length or count; refused when it does not fit. */
    method Count(n: nat) returns (r: Result<()>)
      modifies this
      ensures r.Ok? <==> n <= MAX_U32
      ensures r.Ok? ==> forall rest {:trigger out + rest} :: out + rest == old(out) + PutU32(Low32(n), rest)
    {
      if n > MAX_U32 {
        return Err;
      }
      U32(Low32(n));
      r := Ok(());
    }

    /** Bytes under a four-byte length. */
    method Blob(value: bytes) returns (r: Result<()>)
      modifies this
      ensures r.Ok? <==> Fits(value)
      ensures r.Ok? ==> forall rest {:trigger out + rest} :: out + rest == old(out) + PutBlob(value, rest)
    {
      var _ :- Count(|value|);
      Raw(value);
      r := Ok(());
    }

    /** A string under a two-byte length; refused when its length does not fit. */
    method BoundedString(value: Text) returns (r: Result<()>)
      modifies this
      ensures r.Ok? <==> |value| <= MAX_U16
      ensures r.Ok? ==> forall rest {:trigger out + rest} :: out + rest == old(out) + PutText(value, rest)
    {
      if |value| > MAX_U16 {
        return Err;
      }
      U16(Low16(|value|));
      Raw(value);
      r := Ok(());
    }
  }
}
