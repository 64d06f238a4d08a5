/** Canonical bytes of a textual artifact: strict UTF-8 decode, CRLF folded to LF, encode again. */
module ArtifactIdentity {
  import opened Common

  type Byte = b: int | 0 <= b < 0x100

  /** A Unicode scalar value: a code point that is not a surrogate. */
  type Scalar = s: int | 0 <= s < 0x11_0000 && !(0xD800 <= s < 0xE000)

  const CR: int := 0x0D
  const LF: int := 0x0A

  datatype IdentityError = NotUtf8

  function EncodeScalar(s: Scalar): (bytes: seq<Byte>)
    ensures 1 <= |bytes| <= 4
  {
    if s < 0x80 then [s]
    else if s < 0x800 then [0xC0 + s / 0x40, 0x80 + s % 0x40]
    else if s < 0x1_0000 then [0xE0 + s / 0x40 / 0x40, 0x80 + s / 0x40 % 0x40, 0x80 + s % 0x40]
    else [0xF0 + s / 0x40 / 0x40 / 0x40, 0x80 + s / 0x40 / 0x40 % 0x40, 0x80 + s / 0x40 % 0x40, 0x80 + s % 0x40]
  }

  function Encode(text: seq<Scalar>): seq<Byte> {
    if text == [] then [] else EncodeScalar(text[0]) + Encode(text[1..])
  }

  /** The payload of a trailing byte, or nothing if it is not one. */
  function Tail(b: Byte): Option<int> {
    if 0x80 <= b < 0xC0 then Some(b as int - 0x80) else None
  }

  /** The well-formed byte sequences of section 4 of RFC 3629: no overlong form, no surrogate, nothing
      above U+10FFFF. Returns the scalar and how many bytes it took. */
  function DecodeFirst(raw: seq<Byte>): (r: Option<(Scalar, nat)>)
    requires raw != []
    ensures r.Some? ==> 1 <= r.value.1 <= |raw|
  {
    var a: int := raw[0] as int;
    var t := if |raw| >= 2 then Tail(raw[1]) else None;
    var u := if |raw| >= 3 then Tail(raw[2]) else None;
    var v := if |raw| >= 4 then Tail(raw[3]) else None;
    if a < 0x80 then Some((a, 1))
    else if 0xC2 <= a < 0xE0 && t.Some? then Some((Two(a - 0xC0, t.value), 2))
    else if 0xE0 <= a < 0xF0 && t.Some? && u.Some?
            && (a == 0xE0 ==> t.value >= 0x20) && (a == 0xED ==> t.value < 0x20) then
      Some((Three(a - 0xE0, t.value, u.value), 3))
    else if 0xF0 <= a < 0xF5 && t.Some? && u.Some? && v.Some?
            && (a == 0xF0 ==> t.value >= 0x10) && (a == 0xF4 ==> t.value < 0x10) then
      Some((Four(a - 0xF0, t.value, u.value, v.value), 4))
    else None
  }

  function Two(a: int, b: int): int { a * 0x40 + b }

  function Three(a: int, b: int, c: int): int { Two(Two(a, b), c) }

  function Four(a: int, b: int, c: int, d: int): int { Two(Three(a, b, c), d) }

  function Decode(raw: seq<Byte>): Option<seq<Scalar>> {
    if raw == [] then Some([])
    else
      match DecodeFirst(raw)
      case None => None
      case Some((s, n)) =>
        match Decode(raw[n..])
        case None => None
        case Some(rest) => Some([s] + rest)
  }

  /** Replaces CR LF by LF, left to right; a CR alone is content. The same fold reads scalars or bytes. */
  function Fold(text: seq<int>): (r: seq<int>)
    ensures forall i :: 0 <= i < |r| ==> r[i] in text
  {
    if text == [] then []
    else if |text| >= 2 && text[0] == CR && text[1] == LF then [LF] + Fold(text[2..])
    else [text[0]] + Fold(text[1..])
  }

  function FoldText(text: seq<Scalar>): (r: seq<Scalar>)
    ensures r == Fold(text)
  {
    Fold(text)
  }

  function CanonicalTextBytes(raw: seq<Byte>): Result<seq<Byte>, IdentityError> {
    match Decode(raw)
    case None => Err(NotUtf8)
    case Some(text) => Ok(Encode(FoldText(text)))
  }

  // ---------------------------------------------------------------- the codec round trips

  lemma DecodeEncoded(s: Scalar, rest: seq<Byte>)
    ensures DecodeFirst(EncodeScalar(s) + rest) == Some((s, |EncodeScalar(s)|))
  {
    var raw := EncodeScalar(s) + rest;
    var h: int := s as int / 0x40;
    var g: int := h / 0x40;
    assert s == Two(h, s as int % 0x40) && h == Two(g, h % 0x40) && g == Two(g / 0x40, g % 0x40);
    assert forall i :: 0 <= i < |EncodeScalar(s)| ==> raw[i] == EncodeScalar(s)[i];
  }

  lemma TwoSplits(a: int, b: int)
    requires 0 <= b < 0x40
    ensures Two(a, b) / 0x40 == a && Two(a, b) % 0x40 == b
  {
  }

  lemma EncodeDecoded(raw: seq<Byte>)
    requires raw != [] && DecodeFirst(raw).Some?
    ensures var (s, n) := DecodeFirst(raw).value; EncodeScalar(s) == raw[..n]
  {
    hide Two;
    var (s, n) := DecodeFirst(raw).value;
    var a: int := raw[0] as int;
    if n == 2 {
      TwoSplits(a - 0xC0, Tail(raw[1]).value);
    } else if n == 3 {
      TwoSplits(a - 0xE0, Tail(raw[1]).value);
      TwoSplits(Two(a - 0xE0, Tail(raw[1]).value), Tail(raw[2]).value);
    } else if n == 4 {
      TwoSplits(a - 0xF0, Tail(raw[1]).value);
      TwoSplits(Two(a - 0xF0, Tail(raw[1]).value), Tail(raw[2]).value);
      TwoSplits(Three(a - 0xF0, Tail(raw[1]).value, Tail(raw[2]).value), Tail(raw[3]).value);
    }
    DecodedRange(raw);
  }

  lemma DecodedRange(raw: seq<Byte>)
    requires raw != [] && DecodeFirst(raw).Some?
    ensures var (s, n) := DecodeFirst(raw).value;
            n == if s < 0x80 then 1 else if s < 0x800 then 2 else if s < 0x1_0000 then 3 else 4
  {
  }

  lemma {:induction false} DecodeOfEncode(text: seq<Scalar>)
    ensures Decode(Encode(text)) == Some(text)
  {
    hide DecodeFirst, EncodeScalar;
    if text != [] {
      var head := EncodeScalar(text[0]);
      DecodeEncoded(text[0], Encode(text[1..]));
      assert (head + Encode(text[1..]))[|head|..] == Encode(text[1..]);
      DecodeOfEncode(text[1..]);
      assert [text[0]] + text[1..] == text;
    }
  }

  lemma {:induction false} EncodeOfDecode(raw: seq<Byte>)
    ensures Decode(raw).Some? ==> Encode(Decode(raw).value) == raw
    decreases |raw|
  {
    hide DecodeFirst, EncodeScalar;
    if raw != [] && Decode(raw).Some? {
      var (s, n) := DecodeFirst(raw).value;
      EncodeDecoded(raw);
      EncodeOfDecode(raw[n..]);
      assert raw == raw[..n] + raw[n..];
      assert ([s] + Decode(raw[n..]).value)[1..] == Decode(raw[n..]).value;
    }
  }

  /** A byte string decodes exactly when some text encodes to it, and that text is what it decodes to. */
  lemma DecodeIsInverse(raw: seq<Byte>, text: seq<Scalar>)
    ensures Decode(raw) == Some(text) <==> Encode(text) == raw
  {
    DecodeOfEncode(text);
    EncodeOfDecode(raw);
  }

  // ---------------------------------------------------------------- folding text is folding bytes

  lemma FoldPair(tail: seq<int>)
    ensures Fold([CR, LF] + tail) == [LF] + Fold(tail)
  {
    assert ([CR, LF] + tail)[2..] == tail;
  }

  lemma FoldPlain(x: int, rest: seq<int>)
    requires x != CR || rest == [] || rest[0] != LF
    ensures Fold([x] + rest) == [x] + Fold(rest)
  {
    assert ([x] + rest)[1..] == rest;
  }

  lemma {:induction false} FoldSkips(prefix: seq<int>, rest: seq<int>)
    requires forall i :: 0 <= i < |prefix| ==> prefix[i] != CR
    ensures Fold(prefix + rest) == prefix + Fold(rest)
  {
    hide Fold;
    if prefix == [] {
      assert prefix + rest == rest;
    } else {
      assert prefix + rest == [prefix[0]] + (prefix[1..] + rest);
      FoldPlain(prefix[0], prefix[1..] + rest);
      FoldSkips(prefix[1..], rest);
    }
  }

  lemma {:induction false} EncodeFolded(text: seq<Scalar>)
    ensures Encode(FoldText(text)) == Fold(Encode(text))
  {
    if text != [] {
      var rest := Encode(text[1..]);
      if text[0] == CR {
        assert Encode(text) == [CR] + rest;
        if |text| >= 2 && text[1] == LF {
          assert rest == [LF] + Encode(text[2..]);
          assert Encode(text)[2..] == Encode(text[2..]);
          assert FoldText(text)[1..] == FoldText(text[2..]);
          EncodeFolded(text[2..]);
        } else {
          assert rest != [] ==> rest[0] != LF;
          assert Encode(text)[1..] == rest;
          assert FoldText(text)[1..] == FoldText(text[1..]);
          EncodeFolded(text[1..]);
        }
      } else {
        FoldSkips(EncodeScalar(text[0]), rest);
        assert FoldText(text)[1..] == FoldText(text[1..]);
        EncodeFolded(text[1..]);
      }
    }
  }

  /** For every byte string, decoding, folding and encoding is folding the bytes themselves; it fails
      exactly when the bytes encode no text. */
  lemma CanonicalIsByteFold(raw: seq<Byte>)
    ensures CanonicalTextBytes(raw).Ok? <==> exists text :: Encode(text) == raw
    ensures CanonicalTextBytes(raw).Ok? ==> CanonicalTextBytes(raw).value == Fold(raw)
  {
    if text :| Encode(text) == raw { DecodeOfEncode(text); }
    if Decode(raw).Some? {
      EncodeOfDecode(raw);
      EncodeFolded(Decode(raw).value);
    }
  }

  // ---------------------------------------------------------------- checkouts that rewrite line endings

  /** Writes the chosen LFs as CR LF. */
  function Rewrite(text: seq<Scalar>, chosen: seq<bool>): seq<Scalar>
    requires |chosen| == |text|
  {
    if text == [] then []
    else (if text[0] == LF && chosen[0] then [CR, LF] else [text[0]]) + Rewrite(text[1..], chosen[1..])
  }

  /** How many chosen LFs already followed a CR. */
  function Doubled(text: seq<Scalar>, chosen: seq<bool>): nat
    requires |chosen| == |text|
  {
    if |text| < 2 then 0
    else if text[0] == CR && text[1] == LF then (if chosen[1] then 1 else 0) + Doubled(text[2..], chosen[2..])
    else Doubled(text[1..], chosen[1..])
  }

  lemma {:induction false} FoldOfRewrite(text: seq<Scalar>, chosen: seq<bool>)
    requires |chosen| == |text|
    ensures |Fold(Rewrite(text, chosen))| == |Fold(text)| + Doubled(text, chosen)
    ensures Doubled(text, chosen) == 0 ==> Fold(Rewrite(text, chosen)) == Fold(text)
  {
    hide Fold, Rewrite;
    if text == [] {
      RewriteNothing();
    } else if |text| >= 2 && text[0] == CR && text[1] == LF {
      var tail := Rewrite(text[2..], chosen[2..]);
      FoldOfRewrite(text[2..], chosen[2..]);
      assert text == [CR, LF] + text[2..];
      FoldPair(text[2..]);
      FoldPair(tail);
      RewritePair(text, chosen);
      FoldPlain(CR, [CR, LF] + tail);
    } else {
      var rest := Rewrite(text[1..], chosen[1..]);
      FoldOfRewrite(text[1..], chosen[1..]);
      RewriteOne(text, chosen);
      assert text == [text[0]] + text[1..];
      FoldPlain(text[0], text[1..]);
      if text[0] == LF && chosen[0] { FoldPair(rest); } else { FoldPlain(text[0], rest); }
    }
  }

  lemma RewriteNothing()
    ensures Rewrite([], []) == [] && Fold([]) == []
  {
  }

  lemma RewriteOne(text: seq<Scalar>, chosen: seq<bool>)
    requires |chosen| == |text| > 0
    ensures var rest := Rewrite(text[1..], chosen[1..]);
            && Rewrite(text, chosen) == (if text[0] == LF && chosen[0] then [CR, LF] else [text[0]]) + rest
            && (|text| >= 2 && text[1] != LF ==> rest != [] && rest[0] == text[1])
            && (|text| == 1 ==> rest == [])
  {
  }

  lemma RewritePair(text: seq<Scalar>, chosen: seq<bool>)
    requires |chosen| == |text| >= 2 && text[0] == CR && text[1] == LF
    ensures var tail := Rewrite(text[2..], chosen[2..]);
            Rewrite(text, chosen) == if chosen[1] then [CR] + ([CR, LF] + tail) else [CR, LF] + tail
  {
    hide Rewrite;
    RewriteOne(text, chosen);
    RewriteSecond(text, chosen);
    Glue(CR, LF, Rewrite(text[2..], chosen[2..]));
  }

  lemma RewriteSecond(text: seq<Scalar>, chosen: seq<bool>)
    requires |chosen| == |text| >= 2
    ensures Rewrite(text[1..], chosen[1..]) ==
            (if text[1] == LF && chosen[1] then [CR, LF] else [text[1]]) + Rewrite(text[2..], chosen[2..])
  {
    assert text[1..][1..] == text[2..] && chosen[1..][1..] == chosen[2..];
  }

  lemma Glue(a: Scalar, b: Scalar, tail: seq<Scalar>)
    ensures [a] + ([b] + tail) == [a, b] + tail
  {
  }

  /** No chosen LF already has a CR before it: it would become CR CR LF, which folds to another text. */
  ghost predicate LeavesPairs(text: seq<Scalar>, chosen: seq<bool>)
    requires |chosen| == |text|
  {
    forall i :: 1 <= i < |text| && chosen[i] && text[i] == LF ==> text[i - 1] != CR
  }

  lemma {:induction false} NothingDoubledIff(text: seq<Scalar>, chosen: seq<bool>)
    requires |chosen| == |text|
    ensures Doubled(text, chosen) == 0 <==> LeavesPairs(text, chosen)
  {
    if |text| >= 2 {
      var step := if text[0] == CR && text[1] == LF then 2 else 1;
      NothingDoubledIff(text[step..], chosen[step..]);
      var t, c := text[step..], chosen[step..];
      assert forall i :: 0 <= i < |t| ==> t[i] == text[i + step] && c[i] == chosen[i + step];
      if LeavesPairs(text, chosen) {
        assert step == 2 ==> !chosen[1];
        forall i | 1 <= i < |t| && c[i] && t[i] == LF ensures t[i - 1] != CR { assert text[i + step - 1] != CR; }
      }
      if LeavesPairs(t, c) && (step == 2 ==> !chosen[1]) {
        forall i | 1 <= i < |text| && chosen[i] && text[i] == LF ensures text[i - 1] != CR {
          if i > step { assert t[i - step - 1] != CR; }
        }
      }
    }
  }

  /** A checkout that writes any chosen LFs as CR LF keeps the identity of every text, CR LF pairs and
      all, exactly when it leaves alone each LF that already follows a CR. */
  lemma CheckoutKeepsIdentity(text: seq<Scalar>, chosen: seq<bool>)
    requires |chosen| == |text|
    ensures CanonicalTextBytes(Encode(Rewrite(text, chosen))) == CanonicalTextBytes(Encode(text)) <==>
            forall i :: 1 <= i < |text| && chosen[i] && text[i] == LF ==> text[i - 1] != CR
  {
    var again := Rewrite(text, chosen);
    DecodeOfEncode(again);
    DecodeOfEncode(text);
    FoldOfRewrite(text, chosen);
    NothingDoubledIff(text, chosen);
    if Encode(FoldText(again)) == Encode(FoldText(text)) {
      DecodeOfEncode(FoldText(again));
      DecodeOfEncode(FoldText(text));
    }
  }

  /** A text without a CR LF pair has one identity under every checkout configuration: its own bytes. */
  lemma OneIdentityPerText(text: seq<Scalar>, chosen: seq<bool>)
    requires |chosen| == |text|
    requires forall i :: 0 <= i < |text| - 1 ==> !(text[i] == CR && text[i + 1] == LF)
    ensures CanonicalTextBytes(Encode(Rewrite(text, chosen))) == Ok(Encode(text))
  {
    hide CanonicalTextBytes, Rewrite, Encode;
    forall i | 1 <= i < |text| && chosen[i] && text[i] == LF ensures text[i - 1] != CR {
      var before := i - 1;
      assert text[before + 1] == LF;
    }
    CheckoutKeepsIdentity(text, chosen);
    OwnBytes(text);
  }

  lemma OwnBytes(text: seq<Scalar>)
    requires forall i :: 0 <= i < |text| - 1 ==> !(text[i] == CR && text[i + 1] == LF)
    ensures CanonicalTextBytes(Encode(text)) == Ok(Encode(text))
  {
    NothingToFold(text);
    DecodeOfEncode(text);
  }

  lemma {:induction false} NothingToFold(text: seq<int>)
    requires forall i :: 0 <= i < |text| - 1 ==> !(text[i] == CR && text[i + 1] == LF)
    ensures Fold(text) == text
  {
    if text != [] {
      assert |text| >= 2 ==> !(text[0] == CR && text[0 + 1] == LF);
      var tail := text[1..];
      assert forall i :: 0 <= i < |tail| ==> tail[i] == text[i + 1];
      NothingToFold(tail);
    }
  }
}
