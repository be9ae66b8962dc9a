/** `Util.randomUUID(len, radix)` with its random source made an input:
    `draws` lists the successive values of `0 | (Math.random() * n)` the
    function asks for. With a non-zero `len` it writes `len` characters of
    the first `radix` of a 62-character alphabet; without one it writes the
    36-character layout of RFC 4122 section 4.4 (version 4, random). */
module Uuid {
  import opened Wrappers

  const Digits: string := "0123456789"
  const LowerCase: string := "abcdefghijklmnopqrstuvwxyz"
  const UpperCase: string := "ABCDEFGHIJKLMNOPQRSTUVWXYZ"

  /** The 62-character alphabet "0-9a-zA-Z" the source splits into `chars`. */
  const Chars: string := Digits + LowerCase + UpperCase

  /** `chars[d]`: a character, or `undefined` (`None`) outside the alphabet. */
  function CharAt(d: int): Option<char> {
    if 0 <= d < |Chars| then Some(Chars[d]) else None
  }

  /** `uuid.join('')`: `undefined` slots contribute nothing. */
  function JoinSlots(slots: seq<Option<char>>): (s: string)
    ensures |s| <= |slots|
    ensures (forall j :: 0 <= j < |slots| ==> slots[j].None?) ==> s == ""
    decreases |slots|
  {
    if |slots| == 0 then ""
    else JoinSlots(slots[..|slots| - 1]) + (match slots[|slots| - 1] case Some(c) => [c] case None => "")
  }

  /** The slots the compact form fills: slot `j` holds `chars[draws[j]]`,
      which is `undefined` for a draw outside the alphabet. */
  function CompactSlots(n: nat, draws: seq<int>): (slots: seq<Option<char>>)
    requires |draws| >= n
    ensures |slots| == n && forall j :: 0 <= j < n ==> slots[j] == CharAt(draws[j])
  {
    seq(n, j requires 0 <= j < n => CharAt(draws[j]))
  }

  /** A length below zero writes no slot. */
  function Clamp(len: int): nat {
    if len < 0 then 0 else len
  }

  lemma {:induction false} JoinSlotsChars(slots: seq<Option<char>>)
    ensures forall c :: c in JoinSlots(slots) ==> exists j :: 0 <= j < |slots| && slots[j] == Some(c)
    ensures |JoinSlots(slots)| <= |slots|
    ensures (forall j :: 0 <= j < |slots| ==> slots[j].Some?) ==>
      |JoinSlots(slots)| == |slots| && forall j :: 0 <= j < |slots| ==> JoinSlots(slots)[j] == slots[j].value
    decreases |slots|
  {
    if |slots| > 0 {
      var init := slots[..|slots| - 1];
      JoinSlotsChars(init);
      forall c | c in JoinSlots(slots) ensures exists j :: 0 <= j < |slots| && slots[j] == Some(c) {
        if c in JoinSlots(init) {
          var j :| 0 <= j < |init| && init[j] == Some(c);
          assert slots[j] == Some(c);
        } else {
          assert slots[|slots| - 1] == Some(c);
        }
      }
    }
  }

  /** The radix used: a missing or zero radix means the whole alphabet. */
  function EffectiveRadix(radix: Option<int>): (n: int)
    ensures n != 0
    ensures radix.None? || radix == Some(0) ==> n == |Chars|
    ensures radix.Some? && radix.value != 0 ==> n == radix.value
  {
    match radix
    case Some(r) => if r == 0 then |Chars| else r
    case None => |Chars|
  }

  /** `if (len)`: a non-zero length asks for the compact form. */
  predicate Compact(len: Option<int>) {
    len.Some? && len.value != 0
  }

  /** The values `0 | (Math.random() * n)` can take for a non-zero `n`
      (truncation toward zero of a number strictly between 0 and `n`, or 0). */
  predicate IsDraw(d: int, n: int) {
    if n > 0 then 0 <= d < n else n < d <= 0
  }

  /** The slots the RFC form fixes before drawing. */
  predicate Preset(i: int) {
    i == 8 || i == 13 || i == 14 || i == 18 || i == 23
  }

  function PresetChar(i: int): char
    requires Preset(i)
  {
    if i == 14 then '4' else '-'
  }

  /** How many preset slots lie below slot `i`, so that slot `i` (if not
      preset) takes draw number `i - PresetsBelow(i)`. */
  function PresetsBelow(i: int): nat {
    (if i > 8 then 1 else 0) + (if i > 13 then 1 else 0) + (if i > 14 then 1 else 0)
    + (if i > 18 then 1 else 0) + (if i > 23 then 1 else 0)
  }

  /** `(r & 0x3) | 0x8`: the two high bits of the clock-sequence digit are
      forced to 10 (RFC 4122 section 4.1.1). */
  function VariantDigit(r: int): (d: int)
    requires 0 <= r < 16
    ensures 8 <= d < 12
    ensures d % 4 == r % 4
  {
    ((r as bv8 & 0x3) | 0x8) as int
  }

  /** The character the RFC form puts in slot `i`. */
  function RfcChar(i: int, draws: seq<int>): char
    requires 0 <= i < 36 && |draws| >= 31
    requires forall j :: 0 <= j < 31 ==> 0 <= draws[j] < 16
  {
    if Preset(i) then PresetChar(i)
    else if i == 19 then Chars[VariantDigit(draws[i - PresetsBelow(i)])]
    else Chars[draws[i - PresetsBelow(i)]]
  }

  predicate IsLowerHex(c: char) {
    '0' <= c <= '9' || 'a' <= c <= 'f'
  }

  /** The RFC 4122 version 4 text form, 8-4-4-4-12 lower-case hex digits:
      the version digit 4 opens the third group (section 4.1.3) and the
      variant digit (one of 8, 9, a, b) opens the fourth (section 4.1.1). */
  predicate IsUuidV4(s: string) {
    && |s| == 36
    && s[8] == '-' && s[13] == '-' && s[18] == '-' && s[23] == '-'
    && s[14] == '4'
    && s[19] in "89ab"
    && forall i :: 0 <= i < 36 && !Preset(i) ==> IsLowerHex(s[i])
  }

  lemma AlphabetDigits()
    ensures |Chars| == 62
    ensures forall k :: 0 <= k < 16 ==> IsLowerHex(Chars[k])
    ensures forall k :: 8 <= k < 12 ==> Chars[k] in "89ab"
  {
    assert forall k :: 0 <= k < 10 ==> Chars[k] == Digits[k];
    assert forall k :: 10 <= k < 16 ==> Chars[k] == LowerCase[k - 10];
  }

  /** A string whose every character is the one the RFC form puts there has
      the version 4 layout. */
  lemma RfcCharShape(id: string, draws: seq<int>)
    requires |draws| >= 31
    requires forall j :: 0 <= j < 31 ==> 0 <= draws[j] < 16
    requires |id| == 36 && forall i :: 0 <= i < 36 ==> id[i] == RfcChar(i, draws)
    ensures IsUuidV4(id)
  {
    AlphabetDigits();
    assert id[19] == Chars[VariantDigit(draws[19 - PresetsBelow(19)])];
    forall i | 0 <= i < 36 && !Preset(i) ensures IsLowerHex(id[i]) {
      if i == 19 { assert 8 <= VariantDigit(draws[i - PresetsBelow(i)]) < 12; }
    }
  }

  method RandomUUID(len: Option<int>, radix: Option<int>, draws: seq<int>) returns (id: string)
    requires Compact(len) ==> |draws| >= len.value
    requires Compact(len) ==> forall j :: 0 <= j < len.value ==> IsDraw(draws[j], EffectiveRadix(radix))
    requires !Compact(len) ==> |draws| >= 31 && forall j :: 0 <= j < 31 ==> 0 <= draws[j] < 16
    ensures Compact(len) ==> id == JoinSlots(CompactSlots(Clamp(len.value), draws))
    ensures Compact(len) ==> |id| <= (if len.value < 0 then 0 else len.value) && forall c :: c in id ==> c in Chars
    ensures Compact(len) && 0 < EffectiveRadix(radix) <= |Chars| ==>
      && |id| == (if len.value < 0 then 0 else len.value)
      && (forall j :: 0 <= j < |id| ==> CharAt(draws[j]) == Some(id[j]))
      && forall c :: c in id ==> c in Chars[..EffectiveRadix(radix)]
    ensures !Compact(len) ==> IsUuidV4(id) && forall i :: 0 <= i < 36 ==> id[i] == RfcChar(i, draws)
  {
    if Compact(len) {
      id := CompactId(len.value, EffectiveRadix(radix), draws);
    } else {
      id := RfcId(draws);
    }
  }

  /** The compact form: slot `i` gets `chars[draws[i]]`. */
  method CompactId(len: int, radix: int, draws: seq<int>) returns (id: string)
    requires radix != 0 && |draws| >= len
    requires forall j :: 0 <= j < len ==> IsDraw(draws[j], radix)
    ensures id == JoinSlots(CompactSlots(Clamp(len), draws))
    ensures |id| <= (if len < 0 then 0 else len) && forall c :: c in id ==> c in Chars
    ensures 0 < radix <= |Chars| ==>
      && |id| == (if len < 0 then 0 else len)
      && (forall j :: 0 <= j < |id| ==> CharAt(draws[j]) == Some(id[j]))
      && forall c :: c in id ==> c in Chars[..radix]
  {
    var n := Clamp(len);
    var uuid := new Option<char>[n](_ => None);
    FillCompactSlots(uuid, draws);
    assert uuid[..] == CompactSlots(n, draws);
    id := JoinSlots(uuid[..]);
    CompactText(n, radix, draws);
  }

  /** What the joined compact slots hold: characters of the alphabet, at
      most one per slot, and exactly `chars[draws[j]]` at `j` when every
      draw is below the radix and the radix fits the alphabet. */
  lemma CompactText(n: nat, radix: int, draws: seq<int>)
    requires radix != 0 && |draws| >= n
    requires forall j :: 0 <= j < n ==> IsDraw(draws[j], radix)
    ensures var id := JoinSlots(CompactSlots(n, draws));
      && |id| <= n && (forall c :: c in id ==> c in Chars)
      && (0 < radix <= |Chars| ==>
        && |id| == n
        && (forall j :: 0 <= j < |id| ==> CharAt(draws[j]) == Some(id[j]))
        && forall c :: c in id ==> c in Chars[..radix])
  {
    var slots := CompactSlots(n, draws);
    var id := JoinSlots(slots);
    JoinSlotsChars(slots);
    forall c | c in id ensures c in Chars {
      var j :| 0 <= j < n && slots[j] == Some(c);
    }
    if 0 < radix <= |Chars| {
      forall j | 0 <= j < n ensures slots[j].Some? {
        assert IsDraw(draws[j], radix);
      }
      forall c | c in id ensures c in Chars[..radix] {
        var j :| 0 <= j < n && slots[j] == Some(c);
        assert Chars[draws[j]] == Chars[..radix][draws[j]];
      }
    }
  }

  /** The `for` loop of the compact form: slot `i` gets `chars[draws[i]]`. */
  method FillCompactSlots(uuid: array<Option<char>>, draws: seq<int>)
    requires |draws| >= uuid.Length
    modifies uuid
    ensures forall j :: 0 <= j < uuid.Length ==> uuid[j] == CharAt(draws[j])
  {
    for i := 0 to uuid.Length
      invariant forall j :: 0 <= j < i ==> uuid[j] == CharAt(draws[j])
    {
      uuid[i] := CharAt(draws[i]);
    }
  }

  /** The RFC form: the preset slots first, then every empty slot, in
      order, takes the next draw; slot 19 takes it through `VariantDigit`. */
  method RfcId(draws: seq<int>) returns (id: string)
    requires |draws| >= 31 && forall j :: 0 <= j < 31 ==> 0 <= draws[j] < 16
    ensures IsUuidV4(id) && forall i :: 0 <= i < 36 ==> id[i] == RfcChar(i, draws)
  {
    var uuid := new Option<char>[36](_ => None);
    uuid[8], uuid[13], uuid[18], uuid[23] := Some('-'), Some('-'), Some('-'), Some('-');
    uuid[14] := Some('4');
    FillRfcSlots(uuid, draws);
    var slots := uuid[..];
    assert forall j :: 0 <= j < 36 ==> slots[j] == Some(RfcChar(j, draws));
    id := JoinSlots(slots);
    JoinSlotsChars(slots);
    RfcCharShape(id, draws);
  }

  /** The `for` loop of the RFC form over the 36 slots, from the presets on. */
  method FillRfcSlots(uuid: array<Option<char>>, draws: seq<int>)
    requires uuid.Length == 36
    requires |draws| >= 31 && forall j :: 0 <= j < 31 ==> 0 <= draws[j] < 16
    requires forall j :: 0 <= j < 36 ==> uuid[j] == if Preset(j) then Some(PresetChar(j)) else None
    modifies uuid
    ensures forall j :: 0 <= j < 36 ==> uuid[j] == Some(RfcChar(j, draws))
  {
    var used := 0;
    for i := 0 to 36
      invariant used == i - PresetsBelow(i)
      invariant forall j :: 0 <= j < i ==> uuid[j] == Some(RfcChar(j, draws))
      invariant forall j :: i <= j < 36 ==> uuid[j] == if Preset(j) then Some(PresetChar(j)) else None
    {
      if uuid[i].None? {
        var d := draws[used];
        uuid[i] := Some(Chars[if i == 19 then VariantDigit(d) else d]);
        used := used + 1;
      }
    }
  }
}
