/**
 * The key decoder of `editorKeyRead`: one key code from the front of the input
 * byte stream. A read that returns no byte is the end of the sequence here.
 */
module Keys {
  import opened Bytes

  /** Key codes of `enum editorKey`; the others are byte values. */
  const BACKSPACE: int := 127
  const ARROW_UP: int := 1000
  const ARROW_DOWN: int := 1001
  const ARROW_LEFT: int := 1002
  const ARROW_RIGHT: int := 1003
  const CTRL_ARROW_LEFT: int := 1004
  const CTRL_ARROW_RIGHT: int := 1005
  const PAGE_UP: int := 1006
  const PAGE_DOWN: int := 1007
  const DELETE_KEY: int := 1008
  const END: int := 1009

  /** `CTRL_KEY(k)`: the low five bits of `k`. */
  function CtrlKey(k: Byte): (r: int)
    ensures 0 <= r < 32 && (k - r) % 32 == 0
  {
    k % 32
  }

  const ENTER: int := 13
  const ESC_KEY: int := 27
  const CTRL_H: int := CtrlKey(104)
  const CTRL_L: int := CtrlKey(108)
  const CTRL_Q: int := CtrlKey(113)
  const CTRL_S: int := CtrlKey(115)

  /** The bytes of escape sequences. */
  const LBRACKET: Byte := 91
  const TILDE: Byte := 126
  const SEMICOLON: Byte := 59
  const DIGIT_0: Byte := 48
  const DIGIT_9: Byte := 57

  predicate IsSpecialKey(k: int)
  {
    ARROW_UP <= k <= END
  }

  predicate IsDigit(b: Byte)
  {
    DIGIT_0 <= b <= DIGIT_9
  }

  /** A `char` holding byte `b`, widened to `int` (a signed `char`). */
  function SignedChar(b: Byte): (k: int)
    ensures -128 <= k < 128
    ensures k % 256 == b
  {
    if b < 128 then b else b - 256
  }

  /** The key returned and how many bytes were read for it. */
  datatype KeyRead = KeyRead(key: int, consumed: nat)

  /** The letter switch on the second byte after ESC, reached after `consumed` bytes. */
  function LetterKey(b: Byte, consumed: nat): (r: KeyRead)
    ensures r.consumed == consumed
  {
    if b == 65 then KeyRead(ARROW_UP, consumed)
    else if b == 66 then KeyRead(ARROW_DOWN, consumed)
    else if b == 67 then KeyRead(ARROW_RIGHT, consumed)
    else if b == 68 then KeyRead(ARROW_LEFT, consumed)
    else if b == 70 then KeyRead(END, consumed)
    else KeyRead(ESC_KEY, consumed)
  }

  /** What follows ESC once its two further bytes have been read. */
  function DecodeEscape(s: seq<Byte>): (r: KeyRead)
    requires |s| >= 3 && s[0] == ESC
    ensures 3 <= r.consumed <= |s| && r.consumed <= 6
    ensures s[1] != LBRACKET ==> r == KeyRead(ESC_KEY, 3)
    ensures r.consumed == 3 <==> s[1] != LBRACKET || !IsDigit(s[2]) || |s| == 3
    ensures r.consumed > 4 <==> s[1] == LBRACKET && IsDigit(s[2]) && |s| > 4 && s[3] == SEMICOLON
    ensures r.consumed > 4 ==> r.consumed == if |s| < 6 then |s| else 6
    ensures s[1] == LBRACKET && IsDigit(s[2]) && !Recognised(s) ==> r.key == ESC_KEY
    ensures s[1] == LBRACKET && IsDigit(s[2]) && |s| >= 6 && s[3] == SEMICOLON && s[5] in {67, 68} ==>
      r == KeyRead(if s[5] == 67 then CTRL_ARROW_RIGHT else CTRL_ARROW_LEFT, 6)
  {
    if s[1] != LBRACKET then KeyRead(ESC_KEY, 3)
    else if IsDigit(s[2]) then
      if |s| < 4 then KeyRead(ESC_KEY, 3)
      else if s[3] == TILDE && s[2] == 51 then KeyRead(DELETE_KEY, 4)
      else if s[3] == TILDE && s[2] == 53 then KeyRead(PAGE_UP, 4)
      else if s[3] == TILDE && s[2] == 54 then KeyRead(PAGE_DOWN, 4)
      else if s[3] == SEMICOLON then
        if |s| < 5 then KeyRead(ESC_KEY, 4)
        else if |s| < 6 then KeyRead(ESC_KEY, 5)
        else if s[5] == 67 then KeyRead(CTRL_ARROW_RIGHT, 6)
        else if s[5] == 68 then KeyRead(CTRL_ARROW_LEFT, 6)
        else LetterKey(s[2], 6)
      else LetterKey(s[2], 4)
    else LetterKey(s[2], 3)
  }

  /**
   * `editorKeyRead`: None when the stream holds no byte; a byte other than ESC
   * is its own key; after ESC two more bytes are read before '[' is tested,
   * and a short or unrecognised sequence gives ESC.
   */
  function DecodeKey(s: seq<Byte>): (r: Option<KeyRead>)
    ensures r.None? <==> s == []
    ensures r.Some? ==> 1 <= r.value.consumed <= |s| && r.value.consumed <= 6
    ensures r.Some? && s[0] != ESC ==> r.value == KeyRead(SignedChar(s[0]), 1)
    ensures s != [] && s[0] == ESC && |s| < 3 ==> r == Some(KeyRead(ESC_KEY, |s|))
    ensures s != [] && s[0] == ESC && |s| >= 3 ==> r == Some(DecodeEscape(s))
  {
    if s == [] then None
    else if s[0] != ESC then Some(KeyRead(SignedChar(s[0]), 1))
    else if |s| < 2 then Some(KeyRead(ESC_KEY, 1))
    else if |s| < 3 then Some(KeyRead(ESC_KEY, 2))
    else Some(DecodeEscape(s))
  }

  /** The escape sequences the decoder recognises, written as a grammar. */
  predicate Recognised(s: seq<Byte>)
  {
    && |s| >= 3 && s[0] == ESC && s[1] == LBRACKET
    && (|| s[2] in {65, 66, 67, 68, 70}
        || (|s| >= 4 && s[3] == TILDE && s[2] in {51, 53, 54})
        || (|s| >= 6 && IsDigit(s[2]) && s[3] == SEMICOLON && s[5] in {67, 68}))
  }

  /** Canonical bytes of each special key (xterm style, modifier 5 for Ctrl). */
  function KeySequence(k: int): (s: seq<Byte>)
    requires IsSpecialKey(k)
    ensures 3 <= |s| <= 6 && s[0] == ESC
  {
    if k == ARROW_UP then [ESC, LBRACKET, 65]
    else if k == ARROW_DOWN then [ESC, LBRACKET, 66]
    else if k == ARROW_RIGHT then [ESC, LBRACKET, 67]
    else if k == ARROW_LEFT then [ESC, LBRACKET, 68]
    else if k == END then [ESC, LBRACKET, 70]
    else if k == DELETE_KEY then [ESC, LBRACKET, 51, TILDE]
    else if k == PAGE_UP then [ESC, LBRACKET, 53, TILDE]
    else if k == PAGE_DOWN then [ESC, LBRACKET, 54, TILDE]
    else if k == CTRL_ARROW_RIGHT then [ESC, LBRACKET, 49, SEMICOLON, 53, 67]
    else [ESC, LBRACKET, 49, SEMICOLON, 53, 68]
  }

  /**
   * A stream starting with ESC decodes to a key other than ESC exactly when it
   * starts with a recognised sequence; that key is special, and decoding its
   * own canonical sequence gives it back.
   */
  lemma DecodeEscapeIff(s: seq<Byte>)
    requires s != [] && s[0] == ESC
    ensures DecodeKey(s).value.key != ESC_KEY <==> Recognised(s)
    ensures DecodeKey(s).value.key != ESC_KEY ==> IsSpecialKey(DecodeKey(s).value.key)
  {
  }

  /** Each special key's sequence decodes back to it, whatever follows. */
  lemma DecodeKeySequence(k: int, rest: seq<Byte>)
    requires IsSpecialKey(k)
    ensures DecodeKey(KeySequence(k) + rest) == Some(KeyRead(k, |KeySequence(k)|))
  {
    var s := KeySequence(k) + rest;
    assert s[..|KeySequence(k)|] == KeySequence(k);
  }

  /**
   * `ESC [ d ; x C` and `ESC [ d ; x D` are Ctrl-Right and Ctrl-Left after six
   * bytes for every digit `d` and every modifier byte `x`, so Shift- and
   * Alt-arrows come out as the Ctrl ones.
   */
  lemma DecodeCtrlArrow(d: Byte, x: Byte, f: Byte, rest: seq<Byte>)
    requires IsDigit(d) && f in {67, 68}
    ensures DecodeKey([ESC, LBRACKET, d, SEMICOLON, x, f] + rest)
      == Some(KeyRead(if f == 67 then CTRL_ARROW_RIGHT else CTRL_ARROW_LEFT, 6))
  {
  }

  /** A key the decoder can produce from a byte stream, other than a bare ESC. */
  predicate Encodable(k: int)
  {
    IsSpecialKey(k) || (-128 <= k < 128 && k != ESC_KEY)
  }

  /** The bytes that produce key `k`. */
  function Encode(k: int): (s: seq<Byte>)
    requires Encodable(k)
    ensures 1 <= |s| <= 6
  {
    if IsSpecialKey(k) then KeySequence(k) else [k % 256]
  }

  function EncodeAll(keys: seq<int>): seq<Byte>
    requires forall i :: 0 <= i < |keys| ==> Encodable(keys[i])
  {
    if keys == [] then [] else Encode(keys[0]) + EncodeAll(keys[1..])
  }

  /** The keys the read loop obtains from a whole stream, one `editorKeyRead` at a time. */
  function DecodeAll(s: seq<Byte>): seq<int>
    decreases |s|
  {
    match DecodeKey(s)
    case None => []
    case Some(kr) => [kr.key] + DecodeAll(s[kr.consumed..])
  }

  /** Encoding a sequence of keys and decoding the bytes gives back the keys. */
  lemma {:induction false} DecodeAllEncodeAll(keys: seq<int>)
    requires forall i :: 0 <= i < |keys| ==> Encodable(keys[i])
    ensures DecodeAll(EncodeAll(keys)) == keys
  {
    if keys != [] {
      var k := keys[0];
      var rest := EncodeAll(keys[1..]);
      var s := Encode(k) + rest;
      assert EncodeAll(keys) == s;
      if IsSpecialKey(k) {
        DecodeKeySequence(k, rest);
      } else {
        assert s[0] == k % 256 != ESC;
        assert DecodeKey(s) == Some(KeyRead(k, 1));
      }
      assert s[|Encode(k)|..] == rest;
      DecodeAllEncodeAll(keys[1..]);
      assert [k] + keys[1..] == keys;
    }
  }
}
