/** Percent decoding, UriDecoder of runtime/bin/file.cc: the pointer loop against section
    2.1 of RFC 3986, where an octet is written "%" and two hexadecimal digits. */
module UriDecoder {
  import opened Common

  type Bytes = seq<Byte>

  const PERCENT: Byte := 0x25

  /** A C string holds no NUL byte. */
  ghost predicate CString(s: Bytes) {
    forall i :: 0 <= i < |s| ==> s[i] != 0
  }

  /** The byte with bit 0x20 set: what the source does to a letter to lower its case. */
  function WithBit5(c: Byte): Byte {
    if c / 32 % 2 == 1 then c else c + 32
  }

  /** The value of a hexadecimal digit of either case. */
  function HexValue(c: Byte): (v: Option<Byte>)
    ensures v.Some? ==> v.value < 16
  {
    if 0x30 <= c <= 0x39 then Some(c - 0x30)
    else if 0x61 <= WithBit5(c) <= 0x66 then Some(WithBit5(c) - 0x57)
    else None
  }

  /** The digits are 0-9, A-F and a-f, with their usual values. */
  lemma HexDigits(c: Byte)
    ensures HexValue(c) ==
            if '0' <= c as char <= '9' then Some(c - '0' as Byte)
            else if 'A' <= c as char <= 'F' then Some(c - 'A' as Byte + 10)
            else if 'a' <= c as char <= 'f' then Some(c - 'a' as Byte + 10)
            else None
  {
  }

  // ---- The decoded string.

  function Prepend(done: Bytes, r: Option<Bytes>): Option<Bytes> {
    match r case None => None case Some(rest) => Some(done + rest)
  }

  lemma PrependMore(done: Bytes, b: Byte, r: Option<Bytes>)
    ensures Prepend(done, Prepend([b], r)) == Prepend(done + [b], r)
    ensures Prepend([], r) == r
  {
    if r.Some? {
      assert done + ([b] + r.value) == (done + [b]) + r.value;
      assert [] + r.value == r.value;
    }
  }

  function Decode(s: Bytes): (r: Option<Bytes>)
    decreases |s|
  {
    if s == [] then Some([])
    else if s[0] != PERCENT then Prepend([s[0]], Decode(s[1..]))
    else if |s| < 3 || HexValue(s[1]).None? || HexValue(s[2]).None? then None
    else Prepend([HexValue(s[1]).value * 16 + HexValue(s[2]).value], Decode(s[3..]))
  }

  /** `s` is a percent-encoding of `d`: each byte of `d`, in order, either stands for itself,
      if it is not "%", or is written as "%" and two hexadecimal digits of either case. */
  ghost predicate Encodes(s: Bytes, d: Bytes)
    decreases |d|
  {
    if d == [] then s == []
    else
      || (|s| >= 1 && s[0] == d[0] != PERCENT && Encodes(s[1..], d[1..]))
      || (&& |s| >= 3 && s[0] == PERCENT && HexValue(s[1]).Some? && HexValue(s[2]).Some?
          && HexValue(s[1]).value * 16 + HexValue(s[2]).value == d[0]
          && Encodes(s[3..], d[1..]))
  }

  /** Decoding inverts every encoder, and succeeds on nothing else. */
  lemma {:induction false} DecodeInvertsEncoders(s: Bytes, d: Bytes)
    ensures Decode(s) == Some(d) <==> Encodes(s, d)
    decreases |s|
  {
    if s == [] {
    } else if s[0] != PERCENT {
      if d != [] {
        DecodeInvertsEncoders(s[1..], d[1..]);
        assert d == [d[0]] + d[1..];
      }
    } else if |s| >= 3 && d != [] {
      DecodeInvertsEncoders(s[3..], d[1..]);
      assert d == [d[0]] + d[1..];
    }
  }

  /** The digit for a value below 16, in the case asked for. */
  function Digit(v: Byte, upper: bool): (c: Byte)
    requires v < 16
    ensures HexValue(c) == Some(v) && c != 0
  {
    if v < 10 then v + 0x30 else if upper then v - 10 + 0x41 else v - 10 + 0x61
  }

  /** The encoder that escapes the bytes for which `escape` says so, and "%" in any case. */
  function Encode(d: Bytes, escape: Byte -> bool, upper: bool): Bytes {
    if d == [] then []
    else
      (if d[0] == PERCENT || escape(d[0]) then [PERCENT, Digit(d[0] / 16, upper), Digit(d[0] % 16, upper)] else [d[0]])
      + Encode(d[1..], escape, upper)
  }

  /** The round trip, for every choice of bytes to escape and of digit case. */
  lemma {:induction false} RoundTrip(d: Bytes, escape: Byte -> bool, upper: bool)
    ensures Decode(Encode(d, escape, upper)) == Some(d)
  {
    if d != [] {
      RoundTrip(d[1..], escape, upper);
      var e, rest := Encode(d, escape, upper), Encode(d[1..], escape, upper);
      if d[0] == PERCENT || escape(d[0]) {
        assert e[3..] == rest;
      } else {
        assert e[1..] == rest;
      }
      assert d == [d[0]] + d[1..];
    }
  }

  // ---- When decoding fails, and how long the result is.

  /** The positions of the "%" signs the decoder scans, left to right. */
  function Scanned(s: Bytes, i: nat): (r: seq<nat>)
    requires i <= |s|
    decreases |s| - i
  {
    if i == |s| then []
    else if s[i] != PERCENT then Scanned(s, i + 1)
    else [i] + (if i + 3 <= |s| then Scanned(s, i + 3) else [])
  }

  predicate GoodEscape(s: Bytes, p: nat) {
    p + 3 <= |s| && HexValue(s[p + 1]).Some? && HexValue(s[p + 2]).Some?
  }

  /** Decoding fails exactly when some scanned "%" lacks two hexadecimal digits, and
      otherwise each escape shortens the result by two. */
  lemma {:induction false} DecodeFailsIff(s: Bytes, i: nat)
    requires i <= |s|
    ensures Decode(s[i..]).Some? <==> forall k :: 0 <= k < |Scanned(s, i)| ==> GoodEscape(s, Scanned(s, i)[k])
    ensures Decode(s[i..]).Some? ==> |Decode(s[i..]).value| == |s| - i - 2 * |Scanned(s, i)|
    decreases |s| - i
  {
    if i == |s| {
    } else if s[i] != PERCENT {
      assert s[i..][1..] == s[i + 1..];
      DecodeFailsIff(s, i + 1);
      assert Scanned(s, i) == Scanned(s, i + 1);
    } else {
      var rest := if i + 3 <= |s| then Scanned(s, i + 3) else [];
      assert Scanned(s, i) == [i] + rest;
      assert Scanned(s, i)[0] == i;
      if GoodEscape(s, i) {
        assert s[i..][3..] == s[i + 3..];
        DecodeFailsIff(s, i + 3);
        assert forall k :: 0 <= k < |rest| ==> Scanned(s, i)[k + 1] == rest[k];
        assert forall k :: 1 <= k < |Scanned(s, i)| ==> Scanned(s, i)[k] == rest[k - 1];
      }
    }
  }

  // ---- The C string the caller sees.

  /** The bytes up to the first NUL. */
  function AsCString(s: Bytes): Bytes {
    if s == [] || s[0] == 0 then [] else [s[0]] + AsCString(s[1..])
  }

  /** The caller, who reads up to the first NUL, sees the whole decoded string exactly
      when no byte of it is NUL. */
  lemma {:induction false} SeenWhole(d: Bytes)
    ensures AsCString(d) == d <==> CString(d)
  {
    if d != [] {
      SeenWhole(d[1..]);
      assert d == [d[0]] + d[1..];
      if d[0] != 0 {
        assert CString(d) <==> CString(d[1..]) by {
          assert forall i :: 1 <= i < |d| ==> d[i] == d[1..][i - 1];
        }
      }
    }
  }

  // ---- The decoder itself.

  /** The value of the first k digits at index i, if they are digits. */
  ghost function Prefix(s: Bytes, i: nat, k: nat): Option<int>
    requires i + k <= |s|
  {
    if k == 0 then Some(0)
    else if Prefix(s, i, k - 1).None? || HexValue(s[i + k - 1]).None? then None
    else Some(Prefix(s, i, k - 1).value * 16 + HexValue(s[i + k - 1]).value as int)
  }

  /** Reads two digits at index i. The second one is read only if the first is a digit, so
      nothing past the terminator is ever read. */
  method HexCharPairToByte(s: Bytes, i: nat) returns (ok: bool, b: Byte)
    requires i <= |s| && CString(s)
    ensures ok <==> i + 2 <= |s| && HexValue(s[i]).Some? && HexValue(s[i + 1]).Some?
    ensures ok ==> b == HexValue(s[i]).value * 16 + HexValue(s[i + 1]).value
  {
    var value: int := 0;
    b := 0;
    for k := 0 to 2
      invariant i + k <= |s| && Prefix(s, i, k) == Some(value)
    {
      var charCode := CharAt(s, i + k, 0);
      if 0x30 <= charCode <= 0x39 {
        value := value * 16 + charCode as int - 0x30;
      } else {
        charCode := WithBit5(charCode);
        if 0x61 <= charCode <= 0x66 {
          value := value * 16 + charCode as int - 0x57;
        } else {
          return false, 0;
        }
      }
      assert HexValue(s[i + k]).Some?;
    }
    assert Prefix(s, i, 1) == Some(HexValue(s[i]).value as int);
    return true, value as Byte;
  }

  lemma {:induction false} DecodeSplit(s: Bytes, i: nat)
    requires i <= |s| && forall k :: 0 <= k < i ==> s[k] != PERCENT
    ensures Decode(s) == Prepend(s[..i], Decode(s[i..]))
  {
    if i == 0 {
      assert s[0..] == s && s[..0] == [];
      PrependMore([], 0, Decode(s));
    } else {
      DecodeSplit(s[..], i - 1);
      assert s[..] == s;
      assert s[i - 1..][1..] == s[i..] && s[i - 1..][0] == s[i - 1];
      PrependMore(s[..i - 1], s[i - 1], Decode(s[i..]));
      assert s[..i - 1] + [s[i - 1]] == s[..i];
    }
  }

  /** Decodes a URI: None when it is malformed, else the decoded bytes. Without any "%" the
      URI itself is the result. */
  method Decoded(uri: Bytes) returns (r: Option<Bytes>)
    requires CString(uri)
    ensures r == Decode(uri)
  {
    var ch := 0;
    while CharAt(uri, ch, 0) != 0 && CharAt(uri, ch, 0) != PERCENT
      invariant 0 <= ch <= |uri| && forall k :: 0 <= k < ch ==> uri[k] != PERCENT
      decreases |uri| - ch
    {
      ch := ch + 1;
    }
    DecodeSplit(uri, ch);
    if CharAt(uri, ch, 0) == 0 {
      assert uri[ch..] == [] && uri[..ch] == uri && uri + [] == uri;
      return Some(uri);
    }
    var len := |uri|;
    var dest := new Byte[len + 1];
    var i := ch;
    for k := 0 to i
      invariant dest[..k] == uri[..k]
    {
      dest[k] := uri[k];
    }
    r := DecodeFrom(uri, i, dest);
  }

  /** One scanned character or escape moved from the input to what is done. */
  lemma DecodeStep(uri: Bytes, ch: nat, done: Bytes, b: Byte, width: nat)
    requires ch + width <= |uri| && ch < |uri|
    requires if uri[ch] != PERCENT then width == 1 && b == uri[ch]
             else width == 3 && GoodEscape(uri, ch) && b == HexValue(uri[ch + 1]).value * 16 + HexValue(uri[ch + 2]).value
    ensures Prepend(done, Decode(uri[ch..])) == Prepend(done + [b], Decode(uri[ch + width..]))
  {
    var rest := uri[ch..];
    assert rest[width..] == uri[ch + width..] && rest[0] == uri[ch] && (width == 3 ==> rest[1] == uri[ch + 1] && rest[2] == uri[ch + 2]);
    assert Decode(rest) == Prepend([b], Decode(uri[ch + width..]));
    PrependMore(done, b, Decode(uri[ch + width..]));
  }

  lemma DecodeBadEscape(uri: Bytes, ch: nat)
    requires ch < |uri| && uri[ch] == PERCENT && !GoodEscape(uri, ch)
    ensures Decode(uri[ch..]) == None
  {
    var rest := uri[ch..];
    assert |rest| >= 3 ==> rest[1] == uri[ch + 1] && rest[2] == uri[ch + 2];
  }

  lemma DecodeEnd(uri: Bytes, done: Bytes)
    ensures Prepend(done, Decode(uri[|uri|..])) == Some(done)
  {
    assert uri[|uri|..] == [] && done + [] == done;
  }

  /** The main loop, from the first "%" at index i on, with the prefix already copied; the
      result and its terminator stay inside a buffer one longer than the URI. The check
      against the length uses that first index throughout; later escapes that run into
      the end are caught by the digit test. */
  method DecodeFrom(uri: Bytes, i: nat, buffer: array<Byte>) returns (r: Option<Bytes>)
    requires CString(uri) && i < |uri| && uri[i] == PERCENT && buffer.Length == |uri| + 1
    requires buffer[..i] == uri[..i]
    modifies buffer
    ensures r == Prepend(uri[..i], Decode(uri[i..]))
    ensures r.Some? ==> |r.value| < buffer.Length && buffer[..|r.value|] == r.value && buffer[|r.value|] == 0
  {
    var len := |uri|;
    var ch, dest := i, i;
    ghost var want := Prepend(uri[..i], Decode(uri[i..]));
    hide HexValue, Decode;
    while CharAt(uri, ch, 0) != 0
      invariant 0 <= dest <= ch <= len && i <= ch
      invariant want == Prepend(buffer[..dest], Decode(uri[ch..]))
      decreases len - ch
    {
      ghost var done := buffer[..dest];
      if uri[ch] != PERCENT {
        DecodeStep(uri, ch, done, uri[ch], 1);
        buffer[dest] := uri[ch];
        dest, ch := dest + 1, ch + 1;
        assert buffer[..dest] == done + [uri[ch - 1]];
        continue;
      }
      if i + 3 > len {
        DecodeBadEscape(uri, ch);
        return None;
      }
      var ok, b := HexCharPairToByte(uri, ch + 1);
      if !ok {
        DecodeBadEscape(uri, ch);
        return None;
      }
      DecodeStep(uri, ch, done, b, 3);
      buffer[dest] := b;
      dest, ch := dest + 1, ch + 3;
      assert buffer[..dest] == done + [b];
    }
    ghost var done := buffer[..dest];
    DecodeEnd(uri, done);
    buffer[dest] := 0;
    assert buffer[..dest] == done;
    return Some(buffer[..dest]);
  }
}
