/** `Util.truncate(string, max_length, replacement)`: a string longer than
    the limit plus the replacement is cut to `max_length` characters and the
    replacement appended. An absent argument is `None`. */
module Truncation {
  import opened Wrappers

  const DefaultMaxLength: int := 100
  const DefaultReplacement: string := "..."

  /** `max_length || 100`: absent or 0 means 100. */
  function EffectiveMax(maxLength: Option<int>): (m: int)
    ensures m != 0
    ensures maxLength.None? || maxLength == Some(0) ==> m == DefaultMaxLength
    ensures maxLength.Some? && maxLength.value != 0 ==> m == maxLength.value
  {
    match maxLength
    case Some(n) => if n == 0 then DefaultMaxLength else n
    case None => DefaultMaxLength
  }

  function EffectiveReplacement(replacement: Option<string>): string {
    replacement.GetOr(DefaultReplacement)
  }

  /** `s.substring(0, end)`: the end is clamped into [0, |s|]. */
  function Prefix(s: string, end: int): (p: string)
    ensures |p| == if end < 0 then 0 else if end > |s| then |s| else end
    ensures p <= s
  {
    if end < 0 then "" else if end > |s| then s else s[..end]
  }

  function Truncate(s: string, maxLength: Option<int>, replacement: Option<string>): (r: string)
    ensures var m, rep := EffectiveMax(maxLength), EffectiveReplacement(replacement);
      && (|s| <= m + |rep| ==> r == s)
      && (|s| > m + |rep| ==> r == Prefix(s, m) + rep)
  {
    var m, rep := EffectiveMax(maxLength), EffectiveReplacement(replacement);
    if |s| <= m + |rep| then s else Prefix(s, m) + rep
  }

  function Min(a: int, b: int): int { if a <= b then a else b }

  /** With a non-negative limit the result is never longer than the input
      nor than limit plus replacement, its length is the smaller of the two,
      and it starts with as much of the input as fits. */
  lemma TruncateLength(s: string, maxLength: Option<int>, replacement: Option<string>)
    requires EffectiveMax(maxLength) > 0
    ensures var m, rep := EffectiveMax(maxLength), EffectiveReplacement(replacement);
      var r := Truncate(s, maxLength, replacement);
      && |r| == Min(|s|, m + |rep|)
      && (r == s || (r[..m] == s[..m] && r[m..] == rep))
  {
  }

  /** Truncating again with the same arguments changes nothing. */
  lemma TruncateIdempotent(s: string, maxLength: Option<int>, replacement: Option<string>)
    ensures Truncate(Truncate(s, maxLength, replacement), maxLength, replacement)
            == Truncate(s, maxLength, replacement)
  {
  }

  /** Defaults: no limit is 100 and no replacement is "...". */
  lemma TruncateDefaults(s: string)
    requires |s| > 103
    ensures Truncate(s, None, None) == s[..100] + "..."
    ensures Truncate(s, Some(0), None) == Truncate(s, None, None)
  {
  }
}
