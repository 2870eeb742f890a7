/** Base 64 with the URL- and filename-safe alphabet of RFC 4648. */
module Base64 {
  // Padded with '=' as section 4 of RFC 4648 describes: the encoding
  // `base64.urlsafe_b64encode` gives, and the lenient decoder
  // `base64.urlsafe_b64decode` that CPython builds on `binascii.a2b_base64`.
  // Text is written as its ASCII codes.
  import opened Wrappers

  type Byte = b: int | 0 <= b < 256
  type Bytes = seq<Byte>

  /** The ASCII code of '='. */
  const Pad: Byte := 61

  /** The alphabet character of a 6-bit value: 'A'..'Z', 'a'..'z', '0'..'9',
      '-' and '_'. */
  function Symbol(v: int): Byte
    requires 0 <= v < 64
  {
    if v < 26 then 65 + v
    else if v < 52 then 97 + (v - 26)
    else if v < 62 then 48 + (v - 52)
    else if v == 62 then 45
    else 95
  }

  /** The 6-bit value of a character as `urlsafe_b64decode` reads it. It
      first turns '-' into '+' and '_' into '/', and `a2b_base64` then takes
      both, so the last two values have two spellings each. `None` for a
      character outside both alphabets, '=' included. */
  function ValueOf(c: Byte): (r: Option<int>)
    ensures r.Some? ==> 0 <= r.value < 64 && (Symbol(r.value) == c || (c == 43 && r.value == 62) || (c == 47 && r.value == 63))
    ensures r.None? <==> !(65 <= c <= 90 || 97 <= c <= 122 || 48 <= c <= 57 || c == 43 || c == 45 || c == 47 || c == 95)
  {
    if 65 <= c <= 90 then Some(c - 65)
    else if 97 <= c <= 122 then Some(c - 97 + 26)
    else if 48 <= c <= 57 then Some(c - 48 + 52)
    else if c == 45 || c == 43 then Some(62)
    else if c == 95 || c == 47 then Some(63)
    else None
  }

  /** Every value's character reads back as the value, and '=' is not in
      the alphabet. */
  lemma SymbolValue(v: int)
    requires 0 <= v < 64
    ensures ValueOf(Symbol(v)) == Some(v)
    ensures Symbol(v) != Pad
  {
  }

  /** The encoding: each group of three bytes becomes four characters; a
      last group of one or two bytes becomes two or three, padded to four. */
  function Encode(bs: Bytes): Bytes
    decreases |bs|
  {
    if |bs| == 0 then []
    else if |bs| == 1 then
      [Symbol(bs[0] / 4), Symbol((bs[0] % 4) * 16), Pad, Pad]
    else if |bs| == 2 then
      [Symbol(bs[0] / 4), Symbol((bs[0] % 4) * 16 + bs[1] / 16), Symbol((bs[1] % 16) * 4), Pad]
    else
      [Symbol(bs[0] / 4), Symbol((bs[0] % 4) * 16 + bs[1] / 16), Symbol((bs[1] % 16) * 4 + bs[2] / 64),
       Symbol(bs[2] % 64)] + Encode(bs[3..])
  }

  /** The bytes of four 6-bit values. */
  function Join3(c0: int, c1: int, c2: int, c3: int): (r: Bytes)
    requires 0 <= c0 < 64 && 0 <= c1 < 64 && 0 <= c2 < 64 && 0 <= c3 < 64
    ensures |r| == 3
  {
    [c0 * 4 + c1 / 16, (c1 % 16) * 16 + c2 / 4, (c2 % 4) * 64 + c3]
  }

  /** The decoder's state between two characters, as `binascii.a2b_base64`
      keeps it: the position in the current group of four, the bits the
      last character left over, the pads seen since the last alphabet
      character, the bytes so far, and whether a closing pad has ended the
      text. */
  datatype Reader = Reader(quad: nat, left: nat, pads: nat, out: Bytes, done: bool)

  /** The state at the start of the text and after every whole group. */
  function At(out: Bytes): Reader {
    Reader(0, 0, 0, out, false)
  }

  /** One character. Once ended, the rest of the text is ignored. A pad in
      the first half of a group is ignored; in the second half it ends the
      text when it completes the group. A character outside the alphabet is
      skipped. An alphabet character adds the byte it completes, which is
      stored into an unsigned char. */
  function Step(r: Reader, c: Byte): (n: Reader)
    ensures r.done ==> n == r
    ensures !r.done && c != Pad && ValueOf(c).None? ==> n == r
  {
    if r.done then r
    else if c == Pad then
      if r.quad < 2 then r
      else if r.quad + r.pads + 1 >= 4 then r.(pads := r.pads + 1, done := true)
      else r.(pads := r.pads + 1)
    else match ValueOf(c)
      case None => r
      case Some(v) => Accept(r, v)
  }

  /** An alphabet character of value `v` at the reader's place in its group. */
  function Accept(r: Reader, v: int): Reader
    requires 0 <= v < 64
  {
    if r.quad == 0 then Reader(1, v, 0, r.out, false)
    else if r.quad == 1 then Reader(2, v % 16, 0, r.out + [(r.left * 4 + v / 16) % 256], false)
    else if r.quad == 2 then Reader(3, v % 4, 0, r.out + [(r.left * 16 + v / 4) % 256], false)
    else Reader(0, 0, 0, r.out + [(r.left * 64 + v) % 256], false)
  }

  /** A value's own character is accepted as that value. */
  lemma SymbolStep(r: Reader, v: int)
    requires 0 <= v < 64 && !r.done
    ensures Step(r, Symbol(v)) == Accept(r, v)
  {
    SymbolValue(v);
  }

  /** The characters of a text, one after another. */
  function Feed(s: Bytes, r: Reader): Reader
    decreases |s|
  {
    if s == [] then r else Feed(s[1..], Step(r, s[0]))
  }

  /** The outcome at the end of the text: the bytes, unless a group was left
      unfinished without its closing pad (`binascii.Error`). */
  function Finish(r: Reader): (d: Option<Bytes>)
    ensures d.Some? <==> r.done || r.quad == 0
    ensures d.Some? ==> d.value == r.out
  {
    if r.done || r.quad == 0 then Some(r.out) else None
  }

  /** `base64.urlsafe_b64decode`, as `Fernet` calls it on a key: `None`
      where it raises. */
  function Decode(s: Bytes): Option<Bytes> {
    Finish(Feed(s, At([])))
  }

  /** Feeding two texts one after the other is feeding them joined. */
  lemma {:induction false} FeedAppend(s: Bytes, t: Bytes, r: Reader)
    ensures Feed(s + t, r) == Feed(t, Feed(s, r))
    decreases |s|
  {
    if s == [] {
      assert s + t == t;
    } else {
      assert (s + t)[1..] == s[1..] + t;
      FeedAppend(s[1..], t, Step(r, s[0]));
    }
  }

  /** After the closing pad nothing more is read. */
  lemma {:induction false} DoneStays(s: Bytes, r: Reader)
    requires r.done
    ensures Feed(s, r) == r
    decreases |s|
  {
    if s != [] {
      DoneStays(s[1..], Step(r, s[0]));
    }
  }

  /** A value below 256 survives the store into an unsigned char. */
  lemma Fits(x: int)
    requires 0 <= x < 256
    ensures x % 256 == x
  {
  }

  /** A text of four characters is read one after another. */
  lemma Feed4(a: Byte, b: Byte, c: Byte, d: Byte, r: Reader)
    ensures Feed([a, b, c, d], r) == Step(Step(Step(Step(r, a), b), c), d)
  {
    var r1, r2, r3 := Step(r, a), Step(Step(r, a), b), Step(Step(Step(r, a), b), c);
    assert [a, b, c, d][1..] == [b, c, d] && [b, c, d][1..] == [c, d] && [c, d][1..] == [d] && [d][1..] == [];
    assert Feed([a, b, c, d], r) == Feed([b, c, d], r1);
    assert Feed([b, c, d], r1) == Feed([c, d], r2);
    assert Feed([c, d], r2) == Feed([d], r3);
    assert Feed([d], r3) == Feed([], Step(r3, d));
  }

  lemma GroupOfThree(b0: Byte, b1: Byte, b2: Byte)
    ensures Join3(b0 / 4, (b0 % 4) * 16 + b1 / 16, (b1 % 16) * 4 + b2 / 64, b2 % 64) == [b0, b1, b2]
  {
  }

  /** A group of four alphabet characters read at the start of a group adds
      its three bytes and leaves the reader at the start of the next. */
  lemma GroupStep(out: Bytes, v0: int, v1: int, v2: int, v3: int)
    requires 0 <= v0 < 64 && 0 <= v1 < 64 && 0 <= v2 < 64 && 0 <= v3 < 64
    ensures Feed([Symbol(v0), Symbol(v1), Symbol(v2), Symbol(v3)], At(out)) == At(out + Join3(v0, v1, v2, v3))
  {
    var b0, b1, b2 := v0 * 4 + v1 / 16, (v1 % 16) * 16 + v2 / 4, (v2 % 4) * 64 + v3;
    assert Join3(v0, v1, v2, v3) == [b0, b1, b2];
    var r1 := Reader(1, v0, 0, out, false);
    var r2 := Reader(2, v1 % 16, 0, out + [b0], false);
    var r3 := Reader(3, v2 % 4, 0, out + [b0, b1], false);
    assert Step(At(out), Symbol(v0)) == r1 by {
      SymbolStep(At(out), v0);
    }
    assert Step(r1, Symbol(v1)) == r2 by {
      SymbolStep(r1, v1);
      AcceptSecond(out, v0, v1);
    }
    assert Step(r2, Symbol(v2)) == r3 by {
      SymbolStep(r2, v2);
      AcceptThird(out, b0, v1 % 16, v2);
    }
    assert Step(r3, Symbol(v3)) == At(out + [b0, b1, b2]) by {
      SymbolStep(r3, v3);
      AcceptFourth(out, b0, b1, v2 % 4, v3);
    }
    StepChain(Symbol(v0), Symbol(v1), Symbol(v2), Symbol(v3), At(out), r1, r2, r3, At(out + [b0, b1, b2]));
  }

  /** Four steps whose states are known make the text's feed. */
  lemma StepChain(a: Byte, b: Byte, c: Byte, d: Byte, r0: Reader, r1: Reader, r2: Reader, r3: Reader, r4: Reader)
    requires Step(r0, a) == r1 && Step(r1, b) == r2 && Step(r2, c) == r3 && Step(r3, d) == r4
    ensures Feed([a, b, c, d], r0) == r4
  {
    Feed4(a, b, c, d, r0);
  }

  /** The second character of a group completes the first byte. */
  lemma AcceptSecond(out: Bytes, l: int, v: int)
    requires 0 <= l < 64 && 0 <= v < 64
    ensures Accept(Reader(1, l, 0, out, false), v) == Reader(2, v % 16, 0, out + [l * 4 + v / 16], false)
  {
    Fits(l * 4 + v / 16);
  }

  /** The third character completes the second byte. */
  lemma AcceptThird(out: Bytes, b0: Byte, l: int, v: int)
    requires 0 <= l < 16 && 0 <= v < 64
    ensures Accept(Reader(2, l, 0, out + [b0], false), v) == Reader(3, v % 4, 0, out + [b0, l * 16 + v / 4], false)
  {
    Fits(l * 16 + v / 4);
    assert out + [b0] + [l * 16 + v / 4] == out + [b0, l * 16 + v / 4];
  }

  /** The fourth character completes the third byte and closes the group. */
  lemma AcceptFourth(out: Bytes, b0: Byte, b1: Byte, l: int, v: int)
    requires 0 <= l < 4 && 0 <= v < 64
    ensures Accept(Reader(3, l, 0, out + [b0, b1], false), v) == At(out + [b0, b1, l * 64 + v])
  {
    Fits(l * 64 + v);
    assert out + [b0, b1] + [l * 64 + v] == out + [b0, b1, l * 64 + v];
  }

  /** Three bytes in front are encoded as four characters in front. */
  lemma EncodeGroup(b0: Byte, b1: Byte, b2: Byte, t: Bytes)
    ensures Encode([b0, b1, b2] + t) ==
      [Symbol(b0 / 4), Symbol((b0 % 4) * 16 + b1 / 16), Symbol((b1 % 16) * 4 + b2 / 64), Symbol(b2 % 64)] + Encode(t)
  {
    var bs := [b0, b1, b2] + t;
    assert bs[0] == b0 && bs[1] == b1 && bs[2] == b2 && bs[3..] == t;
  }

  /** A last group of one byte: two characters and two pads, the second pad
      ending the text. */
  lemma FeedOne(out: Bytes, b0: Byte)
    ensures var r := Feed(Encode([b0]), At(out)); r.done && r.out == out + [b0]
  {
    var v0, v1 := b0 / 4, (b0 % 4) * 16;
    SymbolValue(v0);
    SymbolValue(v1);
    assert Encode([b0]) == [Symbol(v0), Symbol(v1), Pad, Pad];
    assert v1 / 16 == b0 % 4 && v1 % 16 == 0;
    Fits(v0 * 4 + v1 / 16);
    var r1 := Reader(1, v0, 0, out, false);
    var r2 := Reader(2, 0, 0, out + [b0], false);
    assert Step(At(out), Symbol(v0)) == r1;
    assert Step(r1, Symbol(v1)) == r2;
    assert Step(r2, Pad) == r2.(pads := 1);
    assert Step(r2.(pads := 1), Pad) == r2.(pads := 2, done := true);
    Feed4(Symbol(v0), Symbol(v1), Pad, Pad, At(out));
  }

  /** A last group of two bytes: three characters and a pad, which ends the
      text. */
  lemma FeedTwo(out: Bytes, b0: Byte, b1: Byte)
    ensures var r := Feed(Encode([b0, b1]), At(out)); r.done && r.out == out + [b0, b1]
  {
    var v0, v1, v2 := b0 / 4, (b0 % 4) * 16 + b1 / 16, (b1 % 16) * 4;
    SymbolValue(v0);
    SymbolValue(v1);
    SymbolValue(v2);
    assert Encode([b0, b1]) == [Symbol(v0), Symbol(v1), Symbol(v2), Pad];
    assert v1 / 16 == b0 % 4 && v1 % 16 == b1 / 16;
    assert v2 / 4 == b1 % 16 && v2 % 4 == 0;
    Fits(v0 * 4 + v1 / 16);
    Fits((b1 / 16) * 16 + v2 / 4);
    var r1 := Reader(1, v0, 0, out, false);
    var r2 := Reader(2, b1 / 16, 0, out + [b0], false);
    var r3 := Reader(3, 0, 0, out + [b0, b1], false);
    assert Step(At(out), Symbol(v0)) == r1;
    assert Step(r1, Symbol(v1)) == r2;
    assert Step(r2, Symbol(v2)) == r3;
    assert Step(r3, Pad) == r3.(pads := 1, done := true);
    Feed4(Symbol(v0), Symbol(v1), Symbol(v2), Pad, At(out));
  }

  /** Three bytes in front of an encoding are read as one group. */
  lemma FeedFront(b0: Byte, b1: Byte, b2: Byte, t: Bytes, out: Bytes)
    ensures Feed(Encode([b0, b1, b2] + t), At(out)) == Feed(Encode(t), At(out + [b0, b1, b2]))
  {
    var v0, v1, v2, v3 := b0 / 4, (b0 % 4) * 16 + b1 / 16, (b1 % 16) * 4 + b2 / 64, b2 % 64;
    EncodeGroup(b0, b1, b2, t);
    FeedAppend([Symbol(v0), Symbol(v1), Symbol(v2), Symbol(v3)], Encode(t), At(out));
    GroupStep(out, v0, v1, v2, v3);
    GroupOfThree(b0, b1, b2);
  }

  /** Reading an encoding adds its bytes: a text of whole groups leaves the
      reader at the start of a group, any other ends on its pad. */
  lemma {:induction false} FeedEncode(bs: Bytes, out: Bytes)
    ensures var r := Feed(Encode(bs), At(out));
      r.out == out + bs && (|bs| % 3 == 0 ==> r == At(out + bs)) && (|bs| % 3 != 0 ==> r.done)
    decreases |bs|
  {
    if |bs| == 0 {
      FeedNone(bs, out);
    } else if |bs| == 1 {
      FeedSingle(bs, out);
    } else if |bs| == 2 {
      FeedPair(bs, out);
    } else {
      var b0, b1, b2, t := bs[0], bs[1], bs[2], bs[3..];
      assert bs == [b0, b1, b2] + t;
      FeedFront(b0, b1, b2, t, out);
      FeedEncode(t, out + [b0, b1, b2]);
      assert out + [b0, b1, b2] + t == out + bs;
      ThreeMore(|t|);
    }
  }

  lemma ThreeMore(n: nat)
    ensures (n + 3) % 3 == n % 3
  {
  }

  /** `FeedEncode` for no bytes. */
  lemma FeedNone(bs: Bytes, out: Bytes)
    requires |bs| == 0
    ensures var r := Feed(Encode(bs), At(out));
      r.out == out + bs && (|bs| % 3 == 0 ==> r == At(out + bs)) && (|bs| % 3 != 0 ==> r.done)
  {
    assert Encode(bs) == [] && out + bs == out;
  }

  /** `FeedEncode` for one byte. */
  lemma FeedSingle(bs: Bytes, out: Bytes)
    requires |bs| == 1
    ensures var r := Feed(Encode(bs), At(out));
      r.out == out + bs && (|bs| % 3 == 0 ==> r == At(out + bs)) && (|bs| % 3 != 0 ==> r.done)
  {
    assert bs == [bs[0]] && |bs| % 3 == 1;
    FeedOne(out, bs[0]);
  }

  /** `FeedEncode` for two bytes. */
  lemma FeedPair(bs: Bytes, out: Bytes)
    requires |bs| == 2
    ensures var r := Feed(Encode(bs), At(out));
      r.out == out + bs && (|bs| % 3 == 0 ==> r == At(out + bs)) && (|bs| % 3 != 0 ==> r.done)
  {
    assert bs == [bs[0], bs[1]] && |bs| % 3 == 2;
    FeedTwo(out, bs[0], bs[1]);
  }

  /** Decoding an encoding gives back the bytes. */
  lemma DecodeEncode(bs: Bytes)
    ensures Decode(Encode(bs)) == Some(bs)
  {
    FeedEncode(bs, []);
    assert [] + bs == bs;
  }

  /** Whatever follows an encoding that ends on a pad is ignored, as the
      lenient decoder has it. */
  lemma TrailerIgnored(bs: Bytes, t: Bytes)
    requires |bs| % 3 != 0
    ensures Decode(Encode(bs) + t) == Some(bs)
  {
    FeedEncode(bs, []);
    assert [] + bs == bs;
    FeedAppend(Encode(bs), t, At([]));
    DoneStays(t, Feed(Encode(bs), At([])));
  }

  /** A character outside both alphabets and other than '=' is skipped
      wherever it stands. */
  lemma JunkSkipped(s: Bytes, c: Byte, t: Bytes)
    requires c != Pad && ValueOf(c).None?
    ensures Decode(s + [c] + t) == Decode(s + t)
  {
    var r := Feed(s, At([]));
    FeedAppend(s + [c], t, At([]));
    FeedAppend(s, [c], At([]));
    FeedAppend(s, t, At([]));
    assert Feed([c], r) == Feed([], Step(r, c));
  }

  /** Two characters that the decoder reads alike: the same, or two
      spellings of one value. */
  predicate Alike(a: Byte, b: Byte) {
    a == b || (a != Pad && b != Pad && ValueOf(a) == ValueOf(b))
  }

  /** Texts that agree up to the spelling of each character decode alike;
      in particular a key in the standard alphabet, with '+' and '/', is
      the same key as in the URL-safe one. */
  lemma SameReading(s: Bytes, t: Bytes)
    requires |s| == |t| && forall i :: 0 <= i < |s| ==> Alike(s[i], t[i])
    ensures Decode(s) == Decode(t)
  {
    FeedAlike(s, t, At([]));
  }

  lemma {:induction false} FeedAlike(s: Bytes, t: Bytes, r: Reader)
    requires |s| == |t| && forall i :: 0 <= i < |s| ==> Alike(s[i], t[i])
    ensures Feed(s, r) == Feed(t, r)
    decreases |s|
  {
    if s != [] {
      assert Alike(s[0], t[0]);
      assert Step(r, s[0]) == Step(r, t[0]);
      assert forall i :: 0 <= i < |s[1..]| ==> s[1..][i] == s[i + 1] && t[1..][i] == t[i + 1];
      FeedAlike(s[1..], t[1..], Step(r, s[0]));
    }
  }

  /** A last group of three characters and a pad carries two bits that no
      byte uses: behind whole groups, two different texts that differ only
      there decode to the same bytes. */
  lemma PadBitsIgnored(bs: Bytes, v0: int, v1: int, v2: int, w2: int)
    requires |bs| % 3 == 0
    requires 0 <= v0 < 64 && 0 <= v1 < 64 && 0 <= v2 < 64 && 0 <= w2 < 64
    requires v2 / 4 == w2 / 4 && v2 != w2
    ensures var t := Encode(bs);
      var a, b := t + [Symbol(v0), Symbol(v1), Symbol(v2), Pad], t + [Symbol(v0), Symbol(v1), Symbol(w2), Pad];
      a != b && Decode(a) == Decode(b)
  {
    var t := Encode(bs);
    SymbolValue(v2);
    SymbolValue(w2);
    assert (t + [Symbol(v0), Symbol(v1), Symbol(v2), Pad])[|t| + 2] != (t + [Symbol(v0), Symbol(v1), Symbol(w2), Pad])[|t| + 2];
    WholeGroups(bs);
    LastGroupsAlike(bs, v0, v1, v2, w2);
  }

  lemma LastGroupsAlike(bs: Bytes, v0: int, v1: int, v2: int, w2: int)
    requires Feed(Encode(bs), At([])) == At(bs)
    requires 0 <= v0 < 64 && 0 <= v1 < 64 && 0 <= v2 < 64 && 0 <= w2 < 64
    requires v2 / 4 == w2 / 4
    ensures Decode(Encode(bs) + [Symbol(v0), Symbol(v1), Symbol(v2), Pad]) ==
      Decode(Encode(bs) + [Symbol(v0), Symbol(v1), Symbol(w2), Pad])
  {
    LastGroup(bs, v0, v1, v2);
    LastGroup(bs, v0, v1, w2);
  }

  /** Whole groups leave the reader at the start of a group. */
  lemma WholeGroups(bs: Bytes)
    requires |bs| % 3 == 0
    ensures Feed(Encode(bs), At([])) == At(bs)
  {
    FeedEncode(bs, []);
    assert [] + bs == bs;
  }

  /** Three characters and a pad behind whole groups end the text with two
      more bytes, the third character's low two bits dropped. */
  lemma LastGroup(bs: Bytes, v0: int, v1: int, v2: int)
    requires Feed(Encode(bs), At([])) == At(bs)
    requires 0 <= v0 < 64 && 0 <= v1 < 64 && 0 <= v2 < 64
    ensures Decode(Encode(bs) + [Symbol(v0), Symbol(v1), Symbol(v2), Pad]) ==
      Some(bs + [v0 * 4 + v1 / 16, (v1 % 16) * 16 + v2 / 4])
  {
    SymbolValue(v0);
    SymbolValue(v1);
    SymbolValue(v2);
    var x0, x1 := v0 * 4 + v1 / 16, (v1 % 16) * 16 + v2 / 4;
    Fits(x0);
    Fits(x1);
    var r1 := Reader(1, v0, 0, bs, false);
    var r2 := Reader(2, v1 % 16, 0, bs + [x0], false);
    var r3 := Reader(3, v2 % 4, 0, bs + [x0, x1], false);
    assert Step(At(bs), Symbol(v0)) == r1;
    assert Step(r1, Symbol(v1)) == r2;
    assert Step(r2, Symbol(v2)) == r3;
    assert Step(r3, Pad) == r3.(pads := 1, done := true);
    Feed4(Symbol(v0), Symbol(v1), Symbol(v2), Pad, At(bs));
    FeedAppend(Encode(bs), [Symbol(v0), Symbol(v1), Symbol(v2), Pad], At([]));
  }

  /** Each group of up to three bytes takes four characters. */
  lemma {:induction false} EncodeLength(bs: Bytes)
    ensures |Encode(bs)| == 4 * ((|bs| + 2) / 3)
    decreases |bs|
  {
    if |bs| >= 3 {
      EncodeLength(bs[3..]);
    }
  }

  /** Thirty-two bytes encode to forty-four characters. */
  lemma KeyLength(bs: Bytes)
    requires |bs| == 32
    ensures |Encode(bs)| == 44
  {
    EncodeLength(bs);
  }
}
