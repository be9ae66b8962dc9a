/** `Util.parseStr(queryString, coerce)`: a query string becomes an object.
    `/([^&=]+)=?([^&]*)/g` picks the key=value pairs, both halves are
    percent-decoded, a bracketed key `a[b][]` is cut into the path
    ["a", "b", ""] along which containers are created, and a plain key seen
    again collects its values in an array.

    JavaScript values are the datatype `Value`. `decodeURIComponent`, the
    string-to-number conversion behind `isNaN` and unary `+`, and the
    rendering of a number as text belong to the host and are parameters
    (`Host`). A `None` from the decoder is the URIError it throws; an
    assignment to an array's `length` that is not a valid length throws
    RangeError. Either ends the parse. */
module QueryString {
  import opened Wrappers
  import opened Strings
  import opened Numerals

  /** The JavaScript values a parse can produce. An array keeps its index
      elements (holes read as `Undefined`) and, apart, the properties whose
      names are not array indices. */
  datatype Value =
    | Undefined
    | Null
    | Bool(b: bool)
    | Number(n: real)
    | Str(s: string)
    | Arr(elems: seq<Value>, props: map<string, Value>)
    | Obj(fields: map<string, Value>)

  /** JavaScript truthiness. */
  predicate Truthy(v: Value) {
    match v
    case Undefined => false
    case Null => false
    case Bool(b) => b
    case Number(n) => n != 0.0
    case Str(s) => s != ""
    case Arr(_, _) => true
    case Obj(_) => true
  }

  predicate IsContainer(v: Value) {
    v.Arr? || v.Obj?
  }

  /** `decodeURIComponent` (None: it throws URIError), `Number(s)` on a
      string (None: NaN) and `Number::toString`. */
  datatype Host = Host(
    decodeUriComponent: string -> Option<string>,
    toNumber: string -> Option<real>,
    numberToString: real -> string)

  /** The two errors `parseStr` lets escape. */
  datatype ParseError = UriError | RangeError

  predicate IsNaN(h: Host, s: string) {
    h.toNumber(s).None?
  }

  // ---------------------------------------------------------------------
  // The tokeniser: successive matches of /([^&=]+)=?([^&]*)/g

  predicate IsKeyChar(c: char) {
    c != '&' && c != '='
  }

  /** Where the next match starts: past every '&' and '=' from `i` on. */
  function SkipFrom(s: string, i: nat): (j: nat)
    requires i <= |s|
    ensures i <= j <= |s|
    ensures j < |s| ==> IsKeyChar(s[j])
    decreases |s| - i
  {
    if i < |s| && !IsKeyChar(s[i]) then SkipFrom(s, i + 1) else i
  }

  /** The end of the greedy `[^&=]+` from `i`. */
  function KeyEnd(s: string, i: nat): (j: nat)
    requires i <= |s|
    ensures i <= j <= |s|
    ensures i < |s| && IsKeyChar(s[i]) ==> i < j
    decreases |s| - i
  {
    if i < |s| && IsKeyChar(s[i]) then KeyEnd(s, i + 1) else i
  }

  /** Past the optional `=` after the key. */
  function ValueStart(s: string, k: nat): (e: nat)
    requires k <= |s|
    ensures k <= e <= |s| && e <= k + 1
    ensures e == k + 1 <==> k < |s| && s[k] == '='
  {
    if k < |s| && s[k] == '=' then k + 1 else k
  }

  /** The end of the greedy `[^&]*` from `i`. */
  function ValueEnd(s: string, i: nat): (j: nat)
    requires i <= |s|
    ensures i <= j <= |s|
    decreases |s| - i
  {
    if i < |s| && s[i] != '&' then ValueEnd(s, i + 1) else i
  }

  lemma {:induction false} SkipFromMaximal(s: string, i: nat)
    requires i <= |s|
    ensures forall j :: i <= j < SkipFrom(s, i) ==> !IsKeyChar(s[j])
    decreases |s| - i
  {
    if i < |s| && !IsKeyChar(s[i]) {
      SkipFromMaximal(s, i + 1);
    }
  }

  lemma {:induction false} KeyEndMaximal(s: string, i: nat)
    requires i <= |s|
    ensures forall j :: i <= j < KeyEnd(s, i) ==> IsKeyChar(s[j])
    ensures KeyEnd(s, i) < |s| ==> !IsKeyChar(s[KeyEnd(s, i)])
    decreases |s| - i
  {
    if i < |s| && IsKeyChar(s[i]) {
      KeyEndMaximal(s, i + 1);
    }
  }

  lemma {:induction false} ValueEndMaximal(s: string, i: nat)
    requires i <= |s|
    ensures forall j :: i <= j < ValueEnd(s, i) ==> s[j] != '&'
    ensures ValueEnd(s, i) < |s| ==> s[ValueEnd(s, i)] == '&'
    decreases |s| - i
  {
    if i < |s| && s[i] != '&' {
      ValueEndMaximal(s, i + 1);
    }
  }

  /** One match: the two captured groups and the `lastIndex` after it. */
  datatype Match = Match(key: string, value: string, end: nat)

  /** `re.exec(s)` with `re.lastIndex == i`: the match starts at the first
      character from `i` on that is neither '&' nor '='; the key group is the
      run of such characters, an optional '=' follows, and the value group
      runs to the next '&'. */
  function NextMatch(s: string, i: nat): (m: Option<Match>)
    requires i <= |s|
    ensures m.Some? ==> i < m.value.end <= |s|
    ensures m.Some? ==> m.value.key != ""
  {
    var start := SkipFrom(s, i);
    if start == |s| then None
    else
      var k := KeyEnd(s, start);
      var e := ValueStart(s, k);
      var v := ValueEnd(s, e);
      Some(Match(s[start..k], s[e..v], v))
  }

  /** All the matches from position `i` on, as (key, value) pairs of raw
      text: each consumes at least one character and has a non-empty key. */
  function TokensFrom(s: string, i: nat): (r: seq<(string, string)>)
    requires i <= |s|
    ensures |r| <= |s| - i
    ensures forall j :: 0 <= j < |r| ==> r[j].0 != ""
    decreases |s| - i
  {
    match NextMatch(s, i)
    case None => []
    case Some(m) => [(m.key, m.value)] + TokensFrom(s, m.end)
  }

  function Tokens(s: string): (r: seq<(string, string)>)
    ensures |r| <= |s|
    ensures forall j :: 0 <= j < |r| ==> r[j].0 != ""
  {
    TokensFrom(s, 0)
  }

  // ---------------------------------------------------------------------
  // Decoding and coercion

  /** Every '+' replaced by the escape of a space, "%20", before decoding. */
  function ReplacePlus(s: string): string
    decreases |s|
  {
    if |s| == 0 then ""
    else (if s[0] == '+' then "%20" else [s[0]]) + ReplacePlus(s[1..])
  }

  function Decode(h: Host, s: string): Option<string> {
    h.decodeUriComponent(ReplacePlus(s))
  }

  /** `coerceTypes`. */
  const CoerceTypes: map<string, Value> := map["true" := Bool(true), "false" := Bool(false), "null" := Null]

  /** The coercion as the source writes it: numeric text becomes its number,
      the text "undefined" becomes `undefined`, and otherwise a table entry is
      used only when the entry itself is truthy. That test lets "false" and
      "null" through as strings: the only literal it produces is `true`. */
  function CoerceAsWritten(v: string, h: Host): (r: Value)
    ensures h.toNumber(v).Some? ==> r == Number(h.toNumber(v).value)
    ensures IsNaN(h, v) ==> (r == Undefined <==> v == "undefined")
    ensures IsNaN(h, v) ==> (r == Bool(true) <==> v == "true")
    ensures IsNaN(h, v) && v != "undefined" && v != "true" ==> r == Str(v)
    ensures r.Str? ==> r.s == v
    ensures r != Null && r != Bool(false) && !IsContainer(r)
  {
    match h.toNumber(v)
    case Some(n) => Number(n)
    case None =>
      if v == "undefined" then Undefined
      else if v in CoerceTypes && Truthy(CoerceTypes[v]) then CoerceTypes[v]
      else Str(v)
  }

  /** The coercion as intended: every entry of the table applies, so
      "false" and "null" become `false` and `null`. */
  function Coerce(v: string, h: Host): (r: Value)
    ensures h.toNumber(v).Some? ==> r == Number(h.toNumber(v).value)
    ensures IsNaN(h, v) && v in CoerceTypes ==> r == CoerceTypes[v]
    ensures IsNaN(h, v) ==> (r == Undefined <==> v == "undefined")
    ensures IsNaN(h, v) && v !in CoerceTypes && v != "undefined" ==> r == Str(v)
    ensures r.Str? ==> r.s == v && v !in CoerceTypes
    ensures !IsContainer(r)
  {
    match h.toNumber(v)
    case Some(n) => Number(n)
    case None =>
      if v == "undefined" then Undefined
      else if v in CoerceTypes then CoerceTypes[v]
      else Str(v)
  }

  // ---------------------------------------------------------------------
  // Key paths

  /** `k.split('][')`, then, when the first piece holds '[' and the last ends
      in ']', that ']' dropped and the first piece split at '['. */
  function SplitKey(k: string): (keys: seq<string>)
    ensures |keys| >= 1
  {
    var pieces := Split(k, "][");
    var last := |pieces| - 1;
    if '[' in pieces[0] && EndsWith(pieces[last], ']') then
      var stripped := pieces[last := pieces[last][..|pieces[last]| - 1]];
      Split(stripped[0], "[") + stripped[1..]
    else pieces
  }

  // ---------------------------------------------------------------------
  // Conversions

  /** `ToString(v)`: an array is its elements joined with ",", with
      `undefined` and `null` elements empty; a plain object is
      "[object Object]". */
  function ToText(v: Value, h: Host): string
    decreases v
  {
    match v
    case Undefined => "undefined"
    case Null => "null"
    case Bool(b) => if b then "true" else "false"
    case Number(n) => h.numberToString(n)
    case Str(s) => s
    case Arr(e, _) =>
      Join(seq(|e|, i requires 0 <= i < |e| => if e[i].Undefined? || e[i].Null? then "" else ToText(e[i], h)), ",")
    case Obj(_) => "[object Object]"
  }

  /** `ToNumber(v)` (None: NaN); a container goes through its text. */
  function ToNumber(v: Value, h: Host): (r: Option<real>)
    ensures v.Number? ==> r == Some(v.n)
    ensures v.Str? ==> r == h.toNumber(v.s)
    ensures v == Undefined ==> r.None?
  {
    match v
    case Undefined => None
    case Null => Some(0.0)
    case Bool(b) => Some(if b then 1.0 else 0.0)
    case Number(n) => Some(n)
    case Str(s) => h.toNumber(s)
    case _ => h.toNumber(ToText(v, h))
  }

  // ---------------------------------------------------------------------
  // Property access on values

  /** The largest array index, 2^32 - 2. */
  const MaxArrayIndex: nat := 4294967294

  /** The largest array length, 2^32 - 1. */
  const MaxArrayLength: nat := 4294967295

  /** The index a property name denotes on an array: its canonical decimal
      text up to `MaxArrayIndex`; any other name is an ordinary property. */
  function ArrayIndex(k: string): Option<nat> {
    if |k| > 0 && AllDigits(k, 10) && (|k| == 1 || k[0] != '0') && Numerals.Value(k, 10) <= MaxArrayIndex
    then Some(Numerals.Value(k, 10)) else None
  }

  /** `curr[k]`: own properties only; an array and a string have a `length`,
      and a string yields its characters. */
  function Get(c: Value, k: string): (r: Value)
    ensures (c.Arr? || c.Str?) && k == "length" ==> r.Number?
    ensures c.Obj? ==> (r == Undefined || k in c.fields)
    ensures !IsContainer(c) && !c.Str? ==> r == Undefined
  {
    match c
    case Obj(m) => if k in m then m[k] else Undefined
    case Arr(e, p) =>
      if k == "length" then Number(|e| as real)
      else
        (match ArrayIndex(k)
         case Some(n) => if n < |e| then e[n] else Undefined
         case None => if k in p then p[k] else Undefined)
    case Str(s) =>
      if k == "length" then Number(|s| as real)
      else
        (match ArrayIndex(k)
         case Some(n) => if n < |s| then Str([s[n]]) else Undefined
         case None => Undefined)
    case _ => Undefined
  }

  /** The `n` empty slots an array gains when written past its end. */
  function Holes(n: nat): (r: seq<Value>)
    ensures |r| == n && forall i :: 0 <= i < n ==> r[i] == Undefined
  {
    seq(n, _ => Undefined)
  }

  /** The length `array.length = x` sets: `ToUint32(x)`, which must equal
      `ToNumber(x)`; otherwise (None) the assignment throws RangeError. */
  function NewLength(x: Value, h: Host): (r: Option<nat>)
    ensures r.Some? <==> ToNumber(x, h).Some? && ToNumber(x, h).value.Floor as real == ToNumber(x, h).value
                         && 0 <= ToNumber(x, h).value.Floor <= MaxArrayLength
    ensures r.Some? ==> ToNumber(x, h) == Some(r.value as real)
  {
    match ToNumber(x, h)
    case None => None
    case Some(n) => if n.Floor as real == n && 0 <= n.Floor <= MaxArrayLength then Some(n.Floor as nat) else None
  }

  /** The elements after the length became `n`: cut, or grown with holes. */
  function Resize(e: seq<Value>, n: nat): (r: seq<Value>)
    ensures |r| == n
    ensures forall i :: 0 <= i < n && i < |e| ==> r[i] == e[i]
    ensures forall i :: |e| <= i < n ==> r[i] == Undefined
  {
    if n <= |e| then e[..n] else e + Holes(n - |e|)
  }

  /** `curr[k] = x`: an index past the end grows the array through holes; an
      array's `length` takes the converted value, or throws RangeError; on a
      primitive the assignment is silently dropped (sloppy mode). */
  function Put(c: Value, k: string, x: Value, h: Host): (r: Result<Value, ParseError>)
    ensures r.Failure? <==> c.Arr? && k == "length" && NewLength(x, h).None?
    ensures r.Failure? ==> r.error == RangeError
    ensures r.Success? ==> (c.Obj? <==> r.value.Obj?) && (c.Arr? <==> r.value.Arr?)
    ensures !IsContainer(c) ==> r == Success(c)
  {
    match c
    case Obj(m) => Success(Obj(m[k := x]))
    case Arr(e, p) =>
      if k == "length" then
        (match NewLength(x, h)
         case None => Failure(RangeError)
         case Some(n) => Success(Arr(Resize(e, n), p)))
      else
        (match ArrayIndex(k)
         case Some(n) => Success(if n < |e| then Arr(e[n := x], p) else Arr(e + Holes(n - |e|) + [x], p))
         case None => Success(Arr(e, p[k := x])))
    case _ => Success(c)
  }

  /** The property name a path segment stands for: a non-empty segment is
      itself, and an empty one is `curr.length`, that is the length of an array or string, the text of an
      object's own `length`, and `undefined` (the name "undefined") for
      anything without one. */
  function Resolve(c: Value, seg: string, h: Host): (k: string)
    ensures seg != "" ==> k == seg
    ensures seg == "" && c.Arr? ==> AllDigits(k, 10) && Numerals.Value(k, 10) == |c.elems|
    ensures seg == "" && !IsContainer(c) && !c.Str? ==> k == "undefined"
    ensures seg == "" && c.Obj? && "length" !in c.fields ==> k == "undefined"
    ensures seg == "" && c.Obj? && "length" in c.fields ==> k == ToText(c.fields["length"], h)
  {
    if seg != "" then seg
    else match c
      case Arr(e, _) => NatToStringDigits(|e|); NatToString(|e|)
      case Str(s) => NatToString(|s|)
      case Obj(m) => if "length" in m then ToText(m["length"], h) else "undefined"
      case _ => "undefined"
  }

  /** The container created for a missing or falsy intermediate property: an
      object when the next segment is non-empty and not numeric, otherwise
      an array. */
  function Fresh(next: string, h: Host): (r: Value)
    ensures r.Obj? <==> next != "" && IsNaN(h, next)
    ensures r.Arr? <==> !(next != "" && IsNaN(h, next))
  {
    if next != "" && IsNaN(h, next) then Obj(map[]) else Arr([], map[])
  }

  /** Whether `curr[k] = x` stores a conversion of `x` rather than `x`
      itself: then a container handed on down the path is detached from
      `curr`. */
  predicate Converts(c: Value, k: string) {
    c.Arr? && k == "length"
  }

  /** The `for` loop over the key path, which assigns each property and
      steps into it, as a recursion on the remaining path: a truthy child is reused, a
      falsy one replaced by a fresh container shaped by the next segment,
      and the last segment receives the value. The child is assigned before
      the rest of the path is walked in it; since every container is reached
      from one place only, assigning the walked child is the same, except
      where the assignment converts it. The assignment and the walk below it
      can each throw only RangeError, so which comes first does not show. */
  function Walk(c: Value, path: seq<string>, v: Value, h: Host): (r: Result<Value, ParseError>)
    requires |path| >= 1
    ensures r.Failure? ==> r.error == RangeError
    ensures r.Success? ==> (c.Obj? <==> r.value.Obj?) && (c.Arr? <==> r.value.Arr?)
    ensures r.Success? && !IsContainer(c) ==> r.value == c
    decreases |path|
  {
    var k := Resolve(c, path[0], h);
    if |path| == 1 then Put(c, k, v, h)
    else
      var existing := Get(c, k);
      var child := if Truthy(existing) then existing else Fresh(path[1], h);
      match Walk(child, path[1..], v, h)
      case Failure(e) => Failure(e)
      case Success(w) => Put(c, k, if Converts(c, k) then child else w, h)
  }

  /** `params[k].push(v)` on an array already at the largest length throws
      RangeError. */
  predicate PushOverflows(params: map<string, Value>, k: string) {
    k in params && params[k].Arr? && |params[k].elems| >= MaxArrayLength
  }

  /** A single-segment key: a truthy previous value is extended (if an
      array) or paired with the new one; otherwise the value is stored. */
  function Accumulate(params: map<string, Value>, k: string, v: Value): (r: map<string, Value>)
    ensures k in r && r.Keys == params.Keys + {k}
    ensures forall o :: o in params && o != k ==> r[o] == params[o]
    ensures !(k in params && Truthy(params[k])) ==> r[k] == v
    ensures k in params && Truthy(params[k]) ==>
      r[k].Arr? && |r[k].elems| >= 1 && r[k].elems[|r[k].elems| - 1] == v
    ensures k in params && params[k].Arr? ==>
      r[k] == Arr(params[k].elems + [v], params[k].props)
    ensures k in params && Truthy(params[k]) && !params[k].Arr? ==>
      r[k] == Arr([params[k], v], map[])
  {
    if k in params && Truthy(params[k]) then
      var prev := params[k];
      if prev.Arr? then params[k := Arr(prev.elems + [v], prev.props)]
      else params[k := Arr([prev, v], map[])]
    else params[k := v]
  }

  /** One iteration of the `while` loop, on one match's raw key and value. */
  function Step(params: map<string, Value>, token: (string, string), coerce: bool, h: Host)
    : (r: Result<map<string, Value>, ParseError>)
    ensures Decode(h, token.0).None? || Decode(h, token.1).None? ==> r == Failure(UriError)
    ensures r == Failure(UriError) ==> Decode(h, token.0).None? || Decode(h, token.1).None?
    ensures r.Success? ==> params.Keys <= r.value.Keys
  {
    match Decode(h, token.0)
    case None => Failure(UriError)
    case Some(k) =>
      match Decode(h, token.1)
      case None => Failure(UriError)
      case Some(raw) =>
        var v := if coerce then CoerceAsWritten(raw, h) else Str(raw);
        var keys := SplitKey(k);
        if |keys| > 1 then
          match Walk(Obj(params), keys, v, h)
          case Failure(e) => Failure(e)
          case Success(w) => Success(w.fields)
        else if PushOverflows(params, k) then Failure(RangeError)
        else Success(Accumulate(params, k, v))
  }

  function ApplyAll(params: map<string, Value>, tokens: seq<(string, string)>, coerce: bool, h: Host)
    : Result<map<string, Value>, ParseError>
    decreases |tokens|
  {
    if |tokens| == 0 then Success(params)
    else match Step(params, tokens[0], coerce, h)
      case Failure(e) => Failure(e)
      case Success(p) => ApplyAll(p, tokens[1..], coerce, h)
  }

  /** The query with one leading '?', if there is one, removed. */
  function StripQuestionMark(q: string): string {
    if |q| > 0 && q[0] == '?' then q[1..] else q
  }

  /** What `parseStr` returns, or the error it throws. */
  function Parse(queryString: string, coerce: bool, h: Host): (r: Result<map<string, Value>, ParseError>)
    ensures StripQuestionMark(queryString) == "" ==> r == Success(map[])
    ensures StripQuestionMark(queryString) != "" ==> r == ApplyAll(map[], Tokens(StripQuestionMark(queryString)), coerce, h)
  {
    var q := StripQuestionMark(queryString);
    if q == "" then Success(map[]) else ApplyAll(map[], Tokens(q), coerce, h)
  }

  /** One step taken off the front of the fold. */
  lemma ApplyAllCons(params: map<string, Value>, t: (string, string), rest: seq<(string, string)>, coerce: bool, h: Host)
    ensures Step(params, t, coerce, h).Failure? ==> ApplyAll(params, [t] + rest, coerce, h) == Step(params, t, coerce, h)
    ensures Step(params, t, coerce, h).Success? ==>
      ApplyAll(params, [t] + rest, coerce, h) == ApplyAll(Step(params, t, coerce, h).value, rest, coerce, h)
  {
    assert ([t] + rest)[0] == t && ([t] + rest)[1..] == rest;
  }

  /** Splitting the fold at any point. */
  lemma {:induction false} ApplyAllAppend(params: map<string, Value>, a: seq<(string, string)>, b: seq<(string, string)>, coerce: bool, h: Host)
    ensures ApplyAll(params, a, coerce, h).Failure? ==> ApplyAll(params, a + b, coerce, h) == ApplyAll(params, a, coerce, h)
    ensures ApplyAll(params, a, coerce, h).Success? ==>
      ApplyAll(params, a + b, coerce, h) == ApplyAll(ApplyAll(params, a, coerce, h).value, b, coerce, h)
    decreases |a|
  {
    if |a| == 0 {
      assert a + b == b;
    } else {
      ApplyAllCons(params, a[0], a[1..] + b, coerce, h);
      assert a + b == [a[0]] + (a[1..] + b);
      ApplyAllCons(params, a[0], a[1..], coerce, h);
      assert a == [a[0]] + a[1..];
      match Step(params, a[0], coerce, h)
      case Failure(_) =>
      case Success(p) => ApplyAllAppend(p, a[1..], b, coerce, h);
    }
  }

  /** The source's loop: `re.exec` from `lastIndex` until no match is left;
      each match is decoded, coerced, and stored along its key's path or
      accumulated under its plain key. */
  method ParseStr(queryString: string, coerce: bool, h: Host) returns (r: Result<map<string, Value>, ParseError>)
    ensures r == Parse(queryString, coerce, h)
  {
    var q := StripQuestionMark(queryString);
    var params: map<string, Value> := map[];
    if q != "" {
      var lastIndex := 0;
      ghost var expected := ApplyAll(map[], Tokens(q), coerce, h);
      while true
        invariant lastIndex <= |q|
        invariant ApplyAll(params, TokensFrom(q, lastIndex), coerce, h) == expected
        decreases |q| - lastIndex
      {
        var m := NextMatch(q, lastIndex);
        if m.None? {
          break;
        }
        ApplyAllCons(params, (m.value.key, m.value.value), TokensFrom(q, m.value.end), coerce, h);
        var k := Decode(h, m.value.key);
        var raw := Decode(h, m.value.value);
        if k.None? || raw.None? {
          return Failure(UriError);
        }
        var v := if coerce then CoerceAsWritten(raw.value, h) else Str(raw.value);
        var keys := SplitKey(k.value);
        if |keys| > 1 {
          var w := Walk(Obj(params), keys, v, h);
          if w.Failure? {
            return Failure(w.error);
          }
          params := w.value.fields;
        } else if k.value in params && Truthy(params[k.value]) {
          var existing := params[k.value];
          if existing.Arr? {
            if |existing.elems| >= MaxArrayLength {
              return Failure(RangeError);
            }
            params := params[k.value := Arr(existing.elems + [v], existing.props)];
          } else {
            params := params[k.value := Arr([existing, v], map[])];
          }
        } else {
          params := params[k.value := v];
        }
        lastIndex := m.value.end;
      }
    }
    return Success(params);
  }
}
