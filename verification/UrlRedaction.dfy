/** Query redaction for logs (`sidecar/src/url_redaction.rs`), over bytes. Which normalised keys are
    sensitive is a parameter. */
module UrlRedaction {
  import opened Bytes
  import opened Collections

  type Text = seq<uint8>

  const PERCENT: uint8 := 0x25
  const EQUALS: uint8 := 0x3D
  const QUESTION: uint8 := 0x3F
  const HASH: uint8 := 0x23
  const AMPERSAND: uint8 := 0x26
  const SEMICOLON: uint8 := 0x3B
  const MAX_DECODE_LAYERS: nat := 8

  // ----- percent decoding -----

  predicate EscapeFirst(s: Text) {
    |s| >= 3 && s[0] == PERCENT && IsHex(s[1]) && IsHex(s[2])
  }

  function EscapedByte(s: Text): uint8
    requires EscapeFirst(s)
  {
    (16 * HexValue(s[1]) + HexValue(s[2])) as uint8
  }

  /** One layer undone; a percent sign that starts no escape stays. */
  function Unescape(s: Text): Text {
    if s == [] then []
    else if EscapeFirst(s) then [EscapedByte(s)] + Unescape(s[3..])
    else [s[0]] + Unescape(s[1..])
  }

  function Iterate(s: Text, k: nat): Text
    decreases k
  {
    if k == 0 then s else Iterate(Unescape(s), k - 1)
  }

  method DecodeLayer(s: Text) returns (next: Text)
    ensures next == Unescape(s)
  {
    next := [];
    var index := 0;
    while index < |s|
      invariant index <= |s| && next + Unescape(s[index..]) == Unescape(s)
    {
      UnescapeStep(next, s, index);
      if s[index] == PERCENT && index + 2 < |s| && IsHex(s[index + 1]) && IsHex(s[index + 2]) {
        next := next + [(16 * HexValue(s[index + 1]) + HexValue(s[index + 2])) as uint8];
        index := index + 3;
      } else {
        next := next + [s[index]];
        index := index + 1;
      }
    }
  }

  lemma UnescapeStep(next: Text, s: Text, index: nat)
    requires index < |s|
    ensures var rest := s[index..];
            next + Unescape(rest) == if EscapeFirst(rest) then next + [EscapedByte(rest)] + Unescape(s[index + 3..])
                                     else next + [s[index]] + Unescape(s[index + 1..])
  {
    var rest := s[index..];
    assert |rest| >= 3 ==> rest[3..] == s[index + 3..];
    assert rest[1..] == s[index + 1..];
  }

  /** Stopping at the first layer that changes nothing is the same as decoding all eight. */
  method DecodeLayers(key: Text) returns (decoded: Text)
    ensures decoded == Iterate(key, MAX_DECODE_LAYERS)
  {
    decoded := key;
    for k := 0 to MAX_DECODE_LAYERS
      invariant Iterate(decoded, MAX_DECODE_LAYERS - k) == Iterate(key, MAX_DECODE_LAYERS)
    {
      var next := DecodeLayer(decoded);
      if next == decoded {
        FixpointStays(decoded, MAX_DECODE_LAYERS - k);
        return;
      }
      decoded := next;
    }
  }

  lemma {:induction false} FixpointStays(s: Text, k: nat)
    requires Unescape(s) == s
    ensures Iterate(s, k) == s
  {
    if k == 0 {
    } else {
      FixpointStays(s, k - 1);
    }
  }

  /** Decoding changes a text only by making it shorter. */
  lemma {:induction false} UnescapeShrinks(s: Text)
    ensures |Unescape(s)| < |s| || Unescape(s) == s
  {
    if s == [] {
    } else {
      UnescapeShrinks(if EscapeFirst(s) then s[3..] else s[1..]);
      assert s == [s[0]] + s[1..];
    }
  }

  lemma {:induction false} IterateShrinks(s: Text, k: nat)
    ensures |Iterate(s, k)| <= |s| && (k > 0 && Iterate(s, k) == s ==> Unescape(s) == s)
    decreases k
  {
    if k == 0 {
    } else {
      UnescapeShrinks(s);
      IterateShrinks(Unescape(s), k - 1);
    }
  }

  // ----- percent encoding -----

  /** e is a percent-encoding of s: any byte may be escaped, in either case of hexadecimal, and a
      percent sign must be. */
  ghost predicate Encodes(s: Text, e: Text) {
    if s == [] then e == []
    else
      || (EscapeFirst(e) && EscapedByte(e) == s[0] && Encodes(s[1..], e[3..]))
      || (e != [] && e[0] == s[0] != PERCENT && Encodes(s[1..], e[1..]))
  }

  lemma {:induction false} DecodesEncoding(s: Text, e: Text)
    requires Encodes(s, e)
    ensures Unescape(e) == s
  {
    if s == [] {
    } else {
      assert s == [s[0]] + s[1..];
      if EscapeFirst(e) && EscapedByte(e) == s[0] && Encodes(s[1..], e[3..]) {
        DecodesEncoding(s[1..], e[3..]);
      } else {
        DecodesEncoding(s[1..], e[1..]);
      }
    }
  }

  /** Each text encodes the one before it. */
  ghost predicate IsChain(chain: seq<Text>) {
    chain != [] && forall i :: 0 < i < |chain| ==> Encodes(chain[i - 1], chain[i])
  }

  lemma {:induction false} UndoLayers(chain: seq<Text>, k: nat)
    requires IsChain(chain)
    ensures Iterate(chain[|chain| - 1], k) ==
            if k < |chain| then chain[|chain| - 1 - k] else Iterate(chain[0], k - (|chain| - 1))
    decreases k
  {
    var n := |chain| - 1;
    if k > 0 && n > 0 {
      DecodesEncoding(chain[n - 1], chain[n]);
      UndoLayers(chain[..n], k - 1);
    }
  }

  /** Exactly which layered encodings are undone: with eight layers every one; with fewer, those of a text
      that decoding leaves alone; with more, all but eight layers remain. */
  lemma LayersUndone(chain: seq<Text>)
    requires IsChain(chain)
    ensures var layers, decoded := |chain| - 1, Iterate(chain[|chain| - 1], MAX_DECODE_LAYERS);
            && (layers < MAX_DECODE_LAYERS ==> (decoded == chain[0] <==> Unescape(chain[0]) == chain[0]))
            && (layers >= MAX_DECODE_LAYERS ==> decoded == chain[layers - MAX_DECODE_LAYERS])
  {
    UndoLayers(chain, MAX_DECODE_LAYERS);
    if |chain| <= MAX_DECODE_LAYERS {
      var left := MAX_DECODE_LAYERS - (|chain| - 1);
      IterateShrinks(chain[0], left);
      if Unescape(chain[0]) == chain[0] {
        FixpointStays(chain[0], left);
      }
    }
  }

  // ----- escaped control sequences -----

  const BACKSLASH: uint8 := 0x5C
  const OPEN_BRACE: uint8 := 0x7B
  const CLOSE_BRACE: uint8 := 0x7D

  function HexNumber(s: Text): nat
    requires AllHex(s)
  {
    if s == [] then 0 else 16 * HexNumber(s[..|s| - 1]) + HexValue(s[|s| - 1])
  }

  /** Hexadecimal text of a number up to `max`; one leading plus sign is accepted. */
  function ParseHex(s: Text, max: nat): Option<nat> {
    var digits := if |s| > 1 && s[0] == PLUS then s[1..] else s;
    if digits == [] || !AllHex(digits) || HexNumber(digits) > max then None else Some(HexNumber(digits))
  }

  /** Unicode control characters. */
  predicate IsControl(c: nat) {
    c < 0x20 || 0x7F <= c <= 0x9F
  }

  /** Unicode characters that only affect formatting. */
  predicate IsFormattingControl(c: nat) {
    || c == 0xAD || 0x600 <= c <= 0x605 || c == 0x61C || c == 0x6DD || c == 0x70F || 0x890 <= c <= 0x891
    || c == 0x8E2 || c == 0x180E || 0x200B <= c <= 0x200F || 0x202A <= c <= 0x202E || 0x2060 <= c <= 0x206F
    || c == 0xFEFF || 0xFFF9 <= c <= 0xFFFB || c == 0x110BD || c == 0x110CD || 0x13430 <= c <= 0x1343F
    || 0x1BCA0 <= c <= 0x1BCA3 || 0x1D173 <= c <= 0x1D17A || c == 0xE0001 || 0xE0020 <= c <= 0xE007F
  }

  /** The first closing brace. */
  function Closing(s: Text): (r: Option<nat>)
    ensures r.Some? ==> r.value < |s| && s[r.value] == CLOSE_BRACE
    ensures r.Some? ==> forall i :: 0 <= i < r.value ==> s[i] != CLOSE_BRACE
    ensures r.None? ==> CLOSE_BRACE !in s
  {
    if s == [] then None
    else if s[0] == CLOSE_BRACE then Some(0)
    else
      var r := Closing(s[1..]);
      assert s == [s[0]] + s[1..];
      if r.None? then None else Some(r.value + 1)
  }

  /** How long the escaped control sequence is that the text begins with, if it begins with one. */
  function ControlLength(s: Text): (r: Option<nat>)
    ensures r.Some? ==> 2 <= r.value <= |s| && s[0] == BACKSLASH
  {
    if |s| < 2 || s[0] != BACKSLASH then None
    else if s[1] == 0x30 || s[1] == 0x6E || s[1] == 0x72 || s[1] == 0x74 then Some(2)
    else if s[1] == 0x75 && |s| > 2 && s[2] == OPEN_BRACE then
      var closing := Closing(s[3..]);
      if closing.None? then None
      else
        var c := ParseHex(s[3..3 + closing.value], 0xFFFF_FFFF);
        if c.Some? && (IsControl(c.value) || IsFormattingControl(c.value)) then Some(3 + closing.value + 1) else None
    else if s[1] == 0x78 && |s| > 3 then
      var c := ParseHex(s[2..4], 0xFF);
      if c.Some? && (c.value < 0x20 || c.value == 0x7F) then Some(4) else None
    else None
  }

  // ----- key normalisation -----

  function Kept(b: uint8): Text {
    if IsDigit(b) || IsAlpha(b) then [LowerByte(b)] else []
  }

  /** Letters and digits in lower case, escaped control sequences left out. */
  function Letters(s: Text): Text {
    if s == [] then []
    else if ControlLength(s).Some? then Letters(s[ControlLength(s).value..])
    else Kept(s[0]) + Letters(s[1..])
  }

  /** The key a spelling stands for. */
  function NormalKey(key: Text): Text {
    Letters(Iterate(key, MAX_DECODE_LAYERS))
  }

  method NormalizeKey(key: Text) returns (normalized: Text)
    ensures normalized == NormalKey(key)
  {
    var decoded := DecodeLayers(key);
    normalized := [];
    var index := 0;
    while index < |decoded|
      invariant index <= |decoded| && normalized + Letters(decoded[index..]) == NormalKey(key)
    {
      var kept;
      kept, index := NormalizeByte(decoded, index);
      Regroup(normalized, kept, Letters(decoded[index..]));
      normalized := normalized + kept;
    }
  }

  /** The loop body: what one byte, or the control sequence that it starts, contributes. */
  method NormalizeByte(s: Text, index: nat) returns (kept: Text, next: nat)
    requires index < |s|
    ensures index < next <= |s| && Letters(s[index..]) == kept + Letters(s[next..])
  {
    var rest := s[index..];
    var length := ControlLength(rest);
    if length.Some? {
      assert rest[length.value..] == s[index + length.value..];
      return [], index + length.value;
    }
    assert rest[1..] == s[index + 1..];
    if IsDigit(s[index]) || IsAlpha(s[index]) {
      return [LowerByte(s[index])], index + 1;
    }
    return [], index + 1;
  }

  /** Up to eight layers of encoding do not hide a key. */
  lemma EncodedKeySame(chain: seq<Text>)
    requires IsChain(chain) && |chain| - 1 <= MAX_DECODE_LAYERS && Unescape(chain[0]) == chain[0]
    ensures NormalKey(chain[|chain| - 1]) == NormalKey(chain[0])
  {
    LayersUndone(chain);
    LayersUndone([chain[0]]);
  }

  /** Lower-case letters and digits only. */
  predicate Plain(s: Text) {
    forall i :: 0 <= i < |s| ==> IsDigit(s[i]) || 0x61 <= s[i] <= 0x7A
  }

  lemma {:induction false} LettersPlain(s: Text)
    ensures Plain(Letters(s))
  {
    if s == [] {
    } else {
      LettersPlain(if ControlLength(s).Some? then s[ControlLength(s).value..] else s[1..]);
    }
  }

  lemma {:induction false} PlainLetters(s: Text)
    requires Plain(s)
    ensures Letters(s) == s
  {
    if s == [] {
    } else {
      PlainLetters(s[1..]);
      assert s == [s[0]] + s[1..];
    }
  }

  /** A normal form is plain and its own normal form. */
  lemma NormalFormStable(key: Text)
    ensures Plain(NormalKey(key)) && NormalKey(NormalKey(key)) == NormalKey(key)
  {
    var n := NormalKey(key);
    LettersPlain(Iterate(key, MAX_DECODE_LAYERS));
    NoPercent(n);
    FixpointStays(n, MAX_DECODE_LAYERS);
    PlainLetters(n);
  }

  /** Whether the text begins with an escaped control sequence, and with which, is decided by the text alone:
      it is not a lone backslash, nor the beginning of a longer sequence. */
  predicate Decided(s: Text) {
    s != [] && (s[0] == BACKSLASH ==>
      && |s| >= 2
      && (s[1] == 0x75 ==> |s| > 2 && (s[2] == OPEN_BRACE ==> Closing(s[3..]).Some?))
      && (s[1] == 0x78 ==> |s| > 3))
  }

  /** Nothing that the scan meets in the text can run into what follows it. */
  predicate SelfContained(s: Text) {
    s == [] || (Decided(s) && SelfContained(s[Step(s)..]))
  }

  /** What follows does not change a decided beginning. */
  lemma DecidedExtends(s: Text, rest: Text)
    requires Decided(s)
    ensures ControlLength(s + rest) == ControlLength(s)
  {
    var t := s + rest;
    assert t[0] == s[0];
    if |s| >= 2 && s[0] == BACKSLASH {
      assert t[1] == s[1];
      if s[1] == 0x75 && s[2] == OPEN_BRACE {
        var k := Closing(s[3..]).value;
        assert t[3..] == s[3..] + rest;
        ClosingExtends(s[3..], rest);
        assert t[3..3 + k] == s[3..3 + k];
      } else if s[1] == 0x75 {
        assert t[2] == s[2];
      } else if s[1] == 0x78 {
        assert t[2..4] == s[2..4];
      }
    }
  }

  lemma {:induction false} ClosingExtends(s: Text, rest: Text)
    requires Closing(s).Some?
    ensures Closing(s + rest) == Closing(s)
  {
    if s[0] == CLOSE_BRACE {
    } else {
      assert (s + rest)[1..] == s[1..] + rest;
      ClosingExtends(s[1..], rest);
    }
  }

  /** A self-contained text is scanned as if it stood alone. */
  lemma {:induction false} LettersConcat(front: Text, rest: Text)
    requires SelfContained(front)
    ensures Letters(front + rest) == Letters(front) + Letters(rest)
  {
    if front == [] {
      assert front + rest == rest;
    } else {
      var more := front[Step(front)..];
      LettersConcat(more, rest);
      LettersStep(front);
      StepExtends(front, rest);
      Regroup(Head(front), Letters(more), Letters(rest));
    }
  }

  lemma StepExtends(front: Text, rest: Text)
    requires Decided(front)
    ensures Letters(front + rest) == Head(front) + Letters(front[Step(front)..] + rest)
  {
    var k, all := Step(front), front + rest;
    DecidedExtends(front, rest);
    LettersStep(all);
    assert all[0] == front[0] && all[k..] == front[k..] + rest;
  }

  /** How far the scan gets at once, and what it keeps of that. */
  function Step(s: Text): (k: nat)
    requires s != []
    ensures 0 < k <= |s|
  {
    if ControlLength(s).Some? then ControlLength(s).value else 1
  }

  function Head(s: Text): Text
    requires s != []
  {
    if ControlLength(s).Some? then [] else Kept(s[0])
  }

  lemma LettersStep(s: Text)
    requires s != []
    ensures Letters(s) == Head(s) + Letters(s[Step(s)..])
  {
  }

  /** Escaped control sequences do not hide a key: put behind a self-contained text, with nothing left to
      decode, one leaves the normal form as it is. */
  lemma ControlsDoNotHide(front: Text, control: Text, rest: Text)
    requires SelfContained(front) && ControlLength(control) == Some(|control|)
    requires Unescape(front + control + rest) == front + control + rest && Unescape(front + rest) == front + rest
    ensures NormalKey(front + control + rest) == NormalKey(front + rest)
  {
    FixpointStays(front + control + rest, MAX_DECODE_LAYERS);
    FixpointStays(front + rest, MAX_DECODE_LAYERS);
    Regroup(front, control, rest);
    LettersConcat(front, control + rest);
    LettersConcat(front, rest);
    ControlSkipped(control, rest);
  }

  lemma ControlSkipped(control: Text, rest: Text)
    requires ControlLength(control) == Some(|control|)
    ensures Letters(control + rest) == Letters(rest)
  {
    DecidedExtends(control, rest);
    assert (control + rest)[|control|..] == rest;
  }

  lemma {:induction false} PlainSelfContained(s: Text)
    requires BACKSLASH !in s
    ensures SelfContained(s)
  {
    if s == [] {
    } else {
      PlainSelfContained(s[1..]);
    }
  }

  /** Behind a lone backslash one does: there it keeps the backslash from joining what follows. */
  lemma LoneBackslashHides()
    ensures var front, control, rest := [0x61, BACKSLASH], [BACKSLASH, 0x6E], [0x6E, 0x62];
            && !SelfContained(front) && ControlLength(control) == Some(|control|)
            && NormalKey(front + control + rest) == [0x61, 0x6E, 0x62] && NormalKey(front + rest) == [0x61, 0x62]
  {
    var front, control, rest: Text := [0x61, BACKSLASH], [BACKSLASH, 0x6E], [0x6E, 0x62];
    assert front[1..] == [BACKSLASH];
    WithControl(front, control, rest);
    WithoutControl(front, rest);
    NothingToDecode(front + control + rest);
    NothingToDecode(front + rest);
  }

  lemma NothingToDecode(s: Text)
    requires PERCENT !in s
    ensures NormalKey(s) == Letters(s)
  {
    NoPercent(s);
    FixpointStays(s, MAX_DECODE_LAYERS);
  }

  lemma WithControl(front: Text, control: Text, rest: Text)
    requires front == [0x61, BACKSLASH] && control == [BACKSLASH, 0x6E] && rest == [0x6E, 0x62]
    ensures Letters(front + control + rest) == [0x61, 0x6E, 0x62]
  {
    assert front + control + rest == [0x61] + ([BACKSLASH] + (control + rest));
    AfterBackslash(control, rest);
    assert rest == [0x6E] + [0x62] && [0x62] + [] == rest[1..];
    LettersCons(0x6E, [0x62]);
    LettersCons(0x62, []);
  }

  lemma AfterBackslash(control: Text, rest: Text)
    requires ControlLength(control) == Some(|control|)
    ensures Letters([0x61] + ([BACKSLASH] + (control + rest))) == [0x61] + Letters(rest)
  {
    LettersCons(0x61, [BACKSLASH] + (control + rest));
    BackslashCons(control + rest);
    ControlSkipped(control, rest);
  }

  lemma LettersCons(b: uint8, s: Text)
    requires b != BACKSLASH
    ensures Letters([b] + s) == Kept(b) + Letters(s)
  {
    assert ([b] + s)[1..] == s;
  }

  lemma BackslashCons(s: Text)
    requires s != [] && s[0] == BACKSLASH
    ensures Letters([BACKSLASH] + s) == Letters(s)
  {
    assert ([BACKSLASH] + s)[1..] == s;
  }

  lemma WithoutControl(front: Text, rest: Text)
    requires front == [0x61, BACKSLASH] && rest == [0x6E, 0x62]
    ensures Letters(front + rest) == [0x61, 0x62]
  {
    var all := front + rest;
    assert all[1..] == [BACKSLASH, 0x6E] + [0x62];
    LettersStep(all);
    ControlSkipped([BACKSLASH, 0x6E], [0x62]);
    LettersStep([0x62]);
  }

  lemma {:induction false} NoPercent(s: Text)
    requires PERCENT !in s
    ensures Unescape(s) == s
  {
    if s == [] {
    } else {
      NoPercent(s[1..]);
      assert s == [s[0]] + s[1..];
    }
  }

  // ----- query tokens -----

  predicate IsSeparator(b: uint8) {
    b == AMPERSAND || b == SEMICOLON
  }

  /** A segment and the separator that ends it, if any. */
  datatype Part = Part(segment: Text, separator: Text)

  function SegmentLength(s: Text): (n: nat)
    ensures n <= |s| && (n < |s| ==> IsSeparator(s[n]))
    ensures forall i :: 0 <= i < n ==> !IsSeparator(s[i])
  {
    if s == [] || IsSeparator(s[0]) then 0 else 1 + SegmentLength(s[1..])
  }

  predicate Bare(s: Text) {
    forall i :: 0 <= i < |s| ==> !IsSeparator(s[i])
  }

  function FirstPart(s: Text): Part {
    var n := SegmentLength(s);
    Part(s[..n], if n < |s| then [s[n]] else [])
  }

  function AfterPart(s: Text): Text {
    var n := SegmentLength(s);
    if n < |s| then s[n + 1..] else []
  }

  function Parts(s: Text): seq<Part>
    decreases |s|
  {
    if s == [] then [] else [FirstPart(s)] + Parts(AfterPart(s))
  }

  function Render(parts: seq<Part>): Text {
    if parts == [] then [] else parts[0].segment + parts[0].separator + Render(parts[1..])
  }

  /** Only the last part may lack a separator, and then it is not empty. */
  predicate WellFormed(parts: seq<Part>) {
    forall i :: 0 <= i < |parts| ==>
      && Bare(parts[i].segment)
      && if parts[i].separator == [] then i == |parts| - 1 && parts[i].segment != []
         else |parts[i].separator| == 1 && IsSeparator(parts[i].separator[0])
  }

  /** The prefix before the first equals sign, if there is one. */
  function KeyPrefix(segment: Text): (r: Option<Text>)
    ensures r.Some? ==> |r.value| < |segment| && segment[..|r.value|] == r.value && EQUALS !in r.value
    ensures r.Some? ==> segment[|r.value|] == EQUALS
    ensures r.None? ==> EQUALS !in segment
  {
    if segment == [] then None
    else if segment[0] == EQUALS then Some([])
    else
      assert segment == [segment[0]] + segment[1..];
      var r := KeyPrefix(segment[1..]);
      if r.None? then None
      else
        var p := [segment[0]] + r.value;
        assert segment[..|p|] == [segment[0]] + segment[1..][..|r.value|];
        Some(p)
  }

  function AfterLast(s: Text, b: uint8): Text {
    if s == [] || s[|s| - 1] == b then [] else AfterLast(s[..|s| - 1], b) + [s[|s| - 1]]
  }

  function KeyOf(prefix: Text): Text {
    AfterLast(AfterLast(prefix, QUESTION), HASH)
  }

  lemma {:induction false} AfterLastExact(s: Text, b: uint8)
    ensures var r := AfterLast(s, b);
            |r| <= |s| && r == s[|s| - |r|..] && b !in r && (|r| < |s| ==> s[|s| - |r| - 1] == b)
  {
    if s != [] && s[|s| - 1] != b {
      AfterLastExact(s[..|s| - 1], b);
    }
  }

  /** The key is the longest suffix of the prefix without a question mark or hash sign. */
  lemma KeyOfExact(prefix: Text)
    ensures var k := KeyOf(prefix);
            && |k| <= |prefix| && k == prefix[|prefix| - |k|..] && QUESTION !in k && HASH !in k
            && (|k| < |prefix| ==> prefix[|prefix| - |k| - 1] == QUESTION || prefix[|prefix| - |k| - 1] == HASH)
  {
    var q := AfterLast(prefix, QUESTION);
    AfterLastExact(prefix, QUESTION);
    AfterLastExact(q, HASH);
    var k := KeyOf(prefix);
    assert forall b :: b in k ==> b in q;
  }

  /** `=[redacted]`, as bytes. */
  const REDACTED: Text := [0x3D, 0x5B, 0x72, 0x65, 0x64, 0x61, 0x63, 0x74, 0x65, 0x64, 0x5D]

  predicate Hides(segment: Text, sensitive: Text -> bool) {
    KeyPrefix(segment).Some? && sensitive(KeyOf(KeyPrefix(segment).value))
  }

  function RedactSegment(segment: Text, sensitive: Text -> bool): Text {
    if Hides(segment, sensitive) then KeyPrefix(segment).value + REDACTED else segment
  }

  function RedactPart(p: Part, sensitive: Text -> bool): Part {
    Part(RedactSegment(p.segment, sensitive), p.separator)
  }

  function RedactParts(parts: seq<Part>, sensitive: Text -> bool): seq<Part> {
    seq(|parts|, i requires 0 <= i < |parts| => RedactPart(parts[i], sensitive))
  }

  function Redacted(token: Text, sensitive: Text -> bool): Text {
    Render(RedactParts(Parts(token), sensitive))
  }

  method RedactQueryToken(token: Text, sensitive: Text -> bool) returns (output: Text)
    ensures output == Redacted(token, sensitive)
  {
    output := [];
    var rest := token;
    while rest != []
      invariant output + Redacted(rest, sensitive) == Redacted(token, sensitive)
      decreases |rest|
    {
      RedactedStep(output, rest, sensitive);
      var part := FirstPart(rest);
      var prefix := KeyPrefix(part.segment);
      if prefix.Some? && sensitive(KeyOf(prefix.value)) {
        output := output + (prefix.value + REDACTED);
      } else {
        output := output + part.segment;
      }
      output := output + part.separator;
      rest := AfterPart(rest);
    }
  }

  lemma RedactedStep(output: Text, s: Text, sensitive: Text -> bool)
    requires s != []
    ensures var p := FirstPart(s);
            output + Redacted(s, sensitive) ==
            output + RedactSegment(p.segment, sensitive) + p.separator + Redacted(AfterPart(s), sensitive)
  {
    RenderStep(FirstPart(s), Parts(AfterPart(s)), sensitive);
  }

  lemma RenderStep(p: Part, parts: seq<Part>, sensitive: Text -> bool)
    ensures Render(RedactParts([p] + parts, sensitive)) ==
            RedactSegment(p.segment, sensitive) + p.separator + Render(RedactParts(parts, sensitive))
  {
    assert RedactParts([p] + parts, sensitive)[1..] == RedactParts(parts, sensitive);
  }

  // ----- what redaction keeps -----

  lemma {:induction false} PartsWellFormed(s: Text)
    ensures WellFormed(Parts(s)) && Render(Parts(s)) == s
    decreases |s|
  {
    if s == [] {
    } else {
      PartsWellFormed(AfterPart(s));
      FirstPartOf(s);
      ConsWellFormed(FirstPart(s), Parts(AfterPart(s)));
    }
  }

  /** A part that may stand before the others. */
  predicate MayPrecede(p: Part, rest: seq<Part>) {
    && Bare(p.segment)
    && if p.separator == [] then rest == [] && p.segment != []
       else |p.separator| == 1 && IsSeparator(p.separator[0])
  }

  lemma ConsWellFormed(p: Part, rest: seq<Part>)
    requires WellFormed(rest) && MayPrecede(p, rest)
    ensures WellFormed([p] + rest) && Render([p] + rest) == p.segment + p.separator + Render(rest)
  {
    assert ([p] + rest)[1..] == rest;
  }

  lemma {:induction false} FirstPartOf(s: Text)
    requires s != []
    ensures s == FirstPart(s).segment + FirstPart(s).separator + AfterPart(s)
    ensures MayPrecede(FirstPart(s), Parts(AfterPart(s)))
  {
    var n := SegmentLength(s);
    if n < |s| {
      SplitAt(s, n);
    } else {
      assert s[..n] == s && s + [] + [] == s;
    }
  }

  lemma SplitAt(s: Text, n: nat)
    requires n < |s|
    ensures s == s[..n] + [s[n]] + s[n + 1..]
  {
  }

  lemma {:induction false} PartsOfRender(parts: seq<Part>)
    requires WellFormed(parts)
    ensures Parts(Render(parts)) == parts
    decreases |parts|
  {
    if parts == [] {
    } else {
      var p, rest := parts[0], parts[1..];
      assert parts == [p] + rest;
      assert forall i :: 0 <= i < |rest| ==> rest[i] == parts[i + 1];
      PartsOfRender(rest);
      PartThenRest(p.segment, p.separator, Render(rest));
      if p.separator == [] {
        assert rest == [];
      }
    }
  }

  lemma PartThenRest(segment: Text, separator: Text, rest: Text)
    requires Bare(segment)
    requires if separator == [] then rest == [] && segment != [] else |separator| == 1 && IsSeparator(separator[0])
    ensures Parts(segment + separator + rest) == [Part(segment, separator)] + Parts(rest)
  {
    var s := segment + separator + rest;
    var n := SegmentLength(s);
    assert forall i :: 0 <= i < |segment| ==> s[i] == segment[i];
    assert separator != [] ==> s[|segment|] == separator[0];
    assert n == |segment| && s[..n] == segment;
    if separator != [] {
      assert separator == [separator[0]];
      assert s[n + 1..] == rest;
    } else {
      assert s == segment;
    }
  }

  lemma RedactSegmentStable(segment: Text, sensitive: Text -> bool)
    requires Bare(segment)
    ensures var r := RedactSegment(segment, sensitive);
            && Bare(r) && (segment != [] ==> r != [])
            && KeyPrefix(r) == KeyPrefix(segment) && RedactSegment(r, sensitive) == r
  {
    if Hides(segment, sensitive) {
      var p := KeyPrefix(segment).value;
      PrefixBare(segment, p);
      PrefixBefore(p, REDACTED);
    }
  }

  lemma PrefixBare(segment: Text, p: Text)
    requires Bare(segment) && |p| <= |segment| && segment[..|p|] == p
    ensures Bare(p + REDACTED)
  {
    var r := p + REDACTED;
    assert forall i :: 0 <= i < |p| ==> r[i] == segment[i];
  }

  lemma {:induction false} PrefixBefore(p: Text, rest: Text)
    requires EQUALS !in p && rest != [] && rest[0] == EQUALS
    ensures KeyPrefix(p + rest) == Some(p)
  {
    var s := p + rest;
    if p == [] {
      assert s == rest;
    } else {
      assert s[1..] == p[1..] + rest;
      PrefixBefore(p[1..], rest);
      assert p == [p[0]] + p[1..];
    }
  }

  /** What becomes of a part: the separator and a segment without a sensitive key stay, another segment keeps
      its key and loses its value. */
  predicate RedactedTo(p: Part, q: Part, sensitive: Text -> bool) {
    && q.separator == p.separator && KeyPrefix(q.segment) == KeyPrefix(p.segment)
    && q.segment == if Hides(p.segment, sensitive) then KeyPrefix(p.segment).value + REDACTED else p.segment
  }

  /** Redaction works part by part, and no part is added or removed. */
  lemma RedactionIsLocal(token: Text, sensitive: Text -> bool)
    ensures var before, after := Parts(token), Parts(Redacted(token, sensitive));
            |after| == |before| && forall i :: 0 <= i < |before| ==> RedactedTo(before[i], after[i], sensitive)
  {
    PartsWellFormed(token);
    var before := Parts(token);
    var after := RedactParts(before, sensitive);
    forall i | 0 <= i < |before|
      ensures Bare(after[i].segment) && (before[i].segment != [] ==> after[i].segment != [])
      ensures RedactedTo(before[i], after[i], sensitive)
    {
      RedactSegmentStable(before[i].segment, sensitive);
    }
    PartsOfRender(after);
  }

  /** Redacting twice is redacting once. */
  lemma RedactionIdempotent(token: Text, sensitive: Text -> bool)
    ensures Redacted(Redacted(token, sensitive), sensitive) == Redacted(token, sensitive)
  {
    RedactionIsLocal(token, sensitive);
    UnchangedExactly(Redacted(token, sensitive), sensitive);
  }

  /** Nothing to redact: the key is not sensitive or its value is redacted already. */
  predicate Settled(p: Part, sensitive: Text -> bool) {
    Hides(p.segment, sensitive) ==> p.segment == KeyPrefix(p.segment).value + REDACTED
  }

  /** A token is unchanged exactly when every sensitive value in it is already redacted. */
  lemma UnchangedExactly(token: Text, sensitive: Text -> bool)
    ensures Redacted(token, sensitive) == token <==>
            forall i :: 0 <= i < |Parts(token)| ==> Settled(Parts(token)[i], sensitive)
  {
    RedactionIsLocal(token, sensitive);
    PartsWellFormed(token);
    PartsWellFormed(Redacted(token, sensitive));
    UnchangedParts(Parts(token), Parts(Redacted(token, sensitive)), sensitive);
  }

  lemma UnchangedParts(ps: seq<Part>, ps': seq<Part>, sensitive: Text -> bool)
    requires |ps'| == |ps| && forall i :: 0 <= i < |ps| ==> RedactedTo(ps[i], ps'[i], sensitive)
    ensures ps' == ps <==> forall i :: 0 <= i < |ps| ==> Settled(ps[i], sensitive)
  {
    forall i | 0 <= i < |ps|
      ensures ps'[i] == ps[i] <==> Settled(ps[i], sensitive)
    {
      assert RedactedTo(ps[i], ps'[i], sensitive);
    }
  }

  /** The tokens have the same parts, except for values of sensitive keys. */
  predicate SameButSecrets(a: Text, b: Text, sensitive: Text -> bool) {
    && |Parts(a)| == |Parts(b)|
    && forall i :: 0 <= i < |Parts(a)| ==> SamePart(Parts(a)[i], Parts(b)[i], sensitive)
  }

  predicate SamePart(p: Part, q: Part, sensitive: Text -> bool) {
    && p.separator == q.separator
    && (p.segment == q.segment || (Hides(p.segment, sensitive) && KeyPrefix(p.segment) == KeyPrefix(q.segment)))
  }

  /** Redaction reveals nothing about sensitive values and nothing else is lost: two tokens redact to the
      same text exactly if they differ only in such values. */
  lemma RedactsSecretsOnly(a: Text, b: Text, sensitive: Text -> bool)
    ensures Redacted(a, sensitive) == Redacted(b, sensitive) <==> SameButSecrets(a, b, sensitive)
  {
    RedactionIsLocal(a, sensitive);
    RedactionIsLocal(b, sensitive);
    PartsWellFormed(Redacted(a, sensitive));
    PartsWellFormed(Redacted(b, sensitive));
    SameParts(Parts(a), Parts(Redacted(a, sensitive)), Parts(b), Parts(Redacted(b, sensitive)), sensitive);
  }

  lemma SameParts(ps: seq<Part>, ps': seq<Part>, qs: seq<Part>, qs': seq<Part>, sensitive: Text -> bool)
    requires |ps'| == |ps| && forall i :: 0 <= i < |ps| ==> RedactedTo(ps[i], ps'[i], sensitive)
    requires |qs'| == |qs| && forall i :: 0 <= i < |qs| ==> RedactedTo(qs[i], qs'[i], sensitive)
    ensures ps' == qs' <==> |ps| == |qs| && forall i :: 0 <= i < |ps| ==> SamePart(ps[i], qs[i], sensitive)
  {
    if |ps| == |qs| {
      forall i | 0 <= i < |ps|
        ensures ps'[i] == qs'[i] <==> SamePart(ps[i], qs[i], sensitive)
      {
        SameOne(ps[i], ps'[i], qs[i], qs'[i], sensitive);
      }
    }
  }

  lemma SameOne(p: Part, p': Part, q: Part, q': Part, sensitive: Text -> bool)
    requires RedactedTo(p, p', sensitive) && RedactedTo(q, q', sensitive)
    ensures p' == q' <==> SamePart(p, q, sensitive)
  {
  }

  /** Up to eight layers of encoding do not get a sensitive value past redaction, wherever the key stands:
      if the key of a part, read as redaction reads it, encodes a sensitive one, the value is gone. */
  lemma EncodedKeyRedacted(token: Text, i: nat, chain: seq<Text>, named: Text -> bool)
    requires IsChain(chain) && |chain| - 1 <= MAX_DECODE_LAYERS && Unescape(chain[0]) == chain[0]
    requires named(NormalKey(chain[0])) && i < |Parts(token)|
    requires var prefix := KeyPrefix(Parts(token)[i].segment);
             prefix.Some? && KeyOf(prefix.value) == chain[|chain| - 1]
    ensures var after := Parts(Redacted(token, k => named(NormalKey(k))));
            |after| == |Parts(token)| && after[i].segment == KeyPrefix(Parts(token)[i].segment).value + REDACTED
  {
    EncodedKeySame(chain);
    var sensitive := k => named(NormalKey(k));
    assert Hides(Parts(token)[i].segment, sensitive);
    RedactionIsLocal(token, sensitive);
  }
}
