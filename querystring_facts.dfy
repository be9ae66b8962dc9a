/** What `parseStr` promises, proved about the model in `QueryString`. */
module QueryStringFacts {
  import opened Wrappers
  import opened Strings
  import opened Numerals
  import opened QueryString

  // ---------------------------------------------------------------------
  // The tokeniser

  /** A pair as it is written in a query: a key, and `=value` unless the
      value is absent. */
  datatype Field = Field(key: string, value: Option<string>)

  predicate WellFormedField(f: Field) {
    && |f.key| > 0
    && (forall i :: 0 <= i < |f.key| ==> IsKeyChar(f.key[i]))
    && (f.value.Some? ==> '&' !in f.value.value)
  }

  function FieldText(f: Field): string {
    f.key + (if f.value.Some? then "=" + f.value.value else "")
  }

  /** The fields joined with '&'. */
  function Render(fields: seq<Field>): string
    decreases |fields|
  {
    if |fields| == 0 then ""
    else if |fields| == 1 then FieldText(fields[0])
    else FieldText(fields[0]) + "&" + Render(fields[1..])
  }

  /** The (key, value) pairs the fields stand for; no '=' means "". */
  function Pairs(fields: seq<Field>): seq<(string, string)>
    decreases |fields|
  {
    if |fields| == 0 then []
    else [(fields[0].key, fields[0].value.GetOr(""))] + Pairs(fields[1..])
  }

  lemma {:induction false} SkipFromShift(p: string, x: string, j: nat)
    requires j <= |x|
    ensures SkipFrom(p + x, |p| + j) == |p| + SkipFrom(x, j)
    decreases |x| - j
  {
    if j < |x| {
      assert (p + x)[|p| + j] == x[j];
      if !IsKeyChar(x[j]) {
        SkipFromShift(p, x, j + 1);
      }
    }
  }

  lemma {:induction false} KeyEndShift(p: string, x: string, j: nat)
    requires j <= |x|
    ensures KeyEnd(p + x, |p| + j) == |p| + KeyEnd(x, j)
    decreases |x| - j
  {
    if j < |x| {
      assert (p + x)[|p| + j] == x[j];
      if IsKeyChar(x[j]) {
        KeyEndShift(p, x, j + 1);
      }
    }
  }

  lemma {:induction false} ValueEndShift(p: string, x: string, j: nat)
    requires j <= |x|
    ensures ValueEnd(p + x, |p| + j) == |p| + ValueEnd(x, j)
    decreases |x| - j
  {
    if j < |x| {
      assert (p + x)[|p| + j] == x[j];
      if x[j] != '&' {
        ValueEndShift(p, x, j + 1);
      }
    }
  }

  lemma SliceShift(p: string, x: string, a: nat, b: nat)
    requires a <= b <= |x|
    ensures (p + x)[|p| + a..|p| + b] == x[a..b]
  {
  }

  /** The pieces of the match at `j`, written out. */
  lemma NextMatchParts(x: string, j: nat, start: nat, k: nat, e: nat, v: nat)
    requires j <= |x| && start == SkipFrom(x, j) && start < |x|
    requires k == KeyEnd(x, start)
    requires e == ValueStart(x, k)
    requires v == ValueEnd(x, e)
    ensures NextMatch(x, j) == Some(Match(x[start..k], x[e..v], v))
  {
  }

  /** The positions of the match at `|p| + j` in `p + x` are those at `j`
      in `x`, moved by `|p|`. */
  lemma ScanShift(p: string, x: string, j: nat, start: nat, k: nat, e: nat, v: nat)
    requires j <= |x| && start == SkipFrom(x, j) && start < |x|
    requires k == KeyEnd(x, start)
    requires e == ValueStart(x, k)
    requires v == ValueEnd(x, e)
    ensures SkipFrom(p + x, |p| + j) == |p| + start
    ensures KeyEnd(p + x, |p| + start) == |p| + k
    ensures ValueStart(p + x, |p| + k) == |p| + e
    ensures ValueEnd(p + x, |p| + e) == |p| + v
  {
    SkipFromShift(p, x, j);
    KeyEndShift(p, x, start);
    if k < |x| {
      assert (p + x)[|p| + k] == x[k];
    }
    ValueEndShift(p, x, e);
  }

  /** The match at `|p| + j` in `p + x`, from the positions of the one at
      `j` in `x`. */
  lemma ShiftedMatch(p: string, x: string, j: nat, start: nat, k: nat, e: nat, v: nat)
    requires j <= |x| && start == SkipFrom(x, j) && start < |x|
    requires k == KeyEnd(x, start)
    requires e == ValueStart(x, k)
    requires v == ValueEnd(x, e)
    ensures NextMatch(p + x, |p| + j) == Some(Match(x[start..k], x[e..v], |p| + v))
  {
    ScanShift(p, x, j, start, k, e, v);
    SliceShift(p, x, start, k);
    SliceShift(p, x, e, v);
    NextMatchParts(p + x, |p| + j, |p| + start, |p| + k, |p| + e, |p| + v);
  }

  /** A match depends only on the text from `lastIndex` on. */
  lemma NextMatchShift(p: string, x: string, j: nat)
    requires j <= |x|
    ensures NextMatch(p + x, |p| + j).None? <==> NextMatch(x, j).None?
    ensures NextMatch(x, j).Some? ==>
      NextMatch(p + x, |p| + j) == Some(NextMatch(x, j).value.(end := |p| + NextMatch(x, j).value.end))
  {
    SkipFromShift(p, x, j);
    var start := SkipFrom(x, j);
    if start < |x| {
      var k := KeyEnd(x, start);
      var e := ValueStart(x, k);
      var v := ValueEnd(x, e);
      NextMatchParts(x, j, start, k, e, v);
      ShiftedMatch(p, x, j, start, k, e, v);
    }
  }

  lemma {:induction false} TokensFromShift(p: string, x: string, j: nat)
    requires j <= |x|
    ensures TokensFrom(p + x, |p| + j) == TokensFrom(x, j)
    decreases |x| - j
  {
    NextMatchShift(p, x, j);
    if NextMatch(x, j).Some? {
      TokensFromShift(p, x, NextMatch(x, j).value.end);
    }
  }

  /** A '&' or '=' where a match would start is passed over. */
  lemma SeparatorSkipped(s: string, i: nat)
    requires i < |s| && !IsKeyChar(s[i])
    ensures TokensFrom(s, i) == TokensFrom(s, i + 1)
  {
    assert SkipFrom(s, i) == SkipFrom(s, i + 1);
  }

  lemma KeyEndRun(s: string, i: nat, j: nat)
    requires i <= j <= |s|
    requires forall l :: i <= l < j ==> IsKeyChar(s[l])
    requires j == |s| || !IsKeyChar(s[j])
    ensures KeyEnd(s, i) == j
    decreases j - i
  {
    if i < j {
      KeyEndRun(s, i + 1, j);
    }
  }

  lemma ValueEndRun(s: string, i: nat, j: nat)
    requires i <= j <= |s|
    requires forall l :: i <= l < j ==> s[l] != '&'
    requires j == |s| || s[j] == '&'
    ensures ValueEnd(s, i) == j
    decreases j - i
  {
    if i < j {
      ValueEndRun(s, i + 1, j);
    }
  }

  /** `key=value` before the end or a '&' is matched exactly. */
  lemma NextMatchKeyValue(key: string, v: string, tail: string)
    requires WellFormedField(Field(key, Some(v)))
    requires tail == "" || tail[0] == '&'
    ensures NextMatch(key + "=" + v + tail, 0) == Some(Match(key, v, |key| + 1 + |v|))
  {
    var s := key + "=" + v + tail;
    var n := |key|;
    assert forall l :: 0 <= l < n ==> s[l] == key[l];
    assert SkipFrom(s, 0) == 0;
    KeyEndRun(s, 0, n);
    assert s[n] == '=';
    assert forall l :: n + 1 <= l < n + 1 + |v| ==> s[l] == v[l - n - 1];
    ValueEndRun(s, n + 1, n + 1 + |v|);
    assert s[..n] == key;
    assert s[n + 1..n + 1 + |v|] == v;
    NextMatchParts(s, 0, 0, n, n + 1, n + 1 + |v|);
  }

  /** A bare key before the end or a '&' is matched with an empty value. */
  lemma NextMatchKey(key: string, tail: string)
    requires WellFormedField(Field(key, None))
    requires tail == "" || tail[0] == '&'
    ensures NextMatch(key + tail, 0) == Some(Match(key, "", |key|))
  {
    var s := key + tail;
    var n := |key|;
    assert forall l :: 0 <= l < n ==> s[l] == key[l];
    assert SkipFrom(s, 0) == 0;
    if |tail| > 0 {
      assert s[n] == '&';
    }
    KeyEndRun(s, 0, n);
    ValueEndRun(s, n, n);
    assert s[..n] == key && s[n..n] == "";
    NextMatchParts(s, 0, 0, n, n, n);
  }

  /** A well-formed field before the end or a '&' is matched exactly. */
  lemma NextMatchField(f: Field, tail: string)
    requires WellFormedField(f)
    requires tail == "" || tail[0] == '&'
    ensures NextMatch(FieldText(f) + tail, 0) == Some(Match(f.key, f.value.GetOr(""), |FieldText(f)|))
  {
    if f.value.Some? {
      assert FieldText(f) + tail == f.key + "=" + f.value.value + tail;
      NextMatchKeyValue(f.key, f.value.value, tail);
    } else {
      assert FieldText(f) + tail == f.key + tail;
      NextMatchKey(f.key, tail);
    }
  }

  /** A single well-formed field tokenises to its pair. */
  lemma TokensOfField(f: Field)
    requires WellFormedField(f)
    ensures Tokens(FieldText(f)) == [(f.key, f.value.GetOr(""))]
  {
    var s := FieldText(f);
    NextMatchField(f, "");
    assert s + "" == s;
    assert SkipFrom(s, |s|) == |s|;
    assert TokensFrom(s, |s|) == [];
  }

  /** The first match of a field followed by `&` and more text. */
  lemma TokensAfterField(f: Field, rest: string)
    requires WellFormedField(f)
    ensures TokensFrom(FieldText(f) + "&" + rest, 0)
            == [(f.key, f.value.GetOr(""))] + TokensFrom(FieldText(f) + "&" + rest, |FieldText(f)| + 1)
  {
    var s := FieldText(f) + "&" + rest;
    assert s == FieldText(f) + ("&" + rest);
    NextMatchField(f, "&" + rest);
    assert s[|FieldText(f)|] == '&';
    SeparatorSkipped(s, |FieldText(f)|);
  }

  /** A well-formed field, a '&', then the rest: the field's pair comes
      first, followed by the rest's matches. */
  lemma TokensOfFieldThen(f: Field, rest: string)
    requires WellFormedField(f)
    ensures Tokens(FieldText(f) + "&" + rest) == [(f.key, f.value.GetOr(""))] + Tokens(rest)
  {
    TokensAfterField(f, rest);
    TokensFromShift(FieldText(f) + "&", rest, 0);
  }

  /** Tokenising rendered fields gives back their pairs, in order. */
  lemma {:induction false} TokensOfRender(fields: seq<Field>)
    requires forall i :: 0 <= i < |fields| ==> WellFormedField(fields[i])
    ensures Tokens(Render(fields)) == Pairs(fields)
    decreases |fields|
  {
    if |fields| == 0 {
      assert SkipFrom("", 0) == 0;
    } else if |fields| == 1 {
      TokensOfField(fields[0]);
      assert Pairs(fields[1..]) == [];
    } else {
      TokensOfFieldThen(fields[0], Render(fields[1..]));
      TokensOfRender(fields[1..]);
    }
  }

  /** `"=x"` has the key "x": a match cannot start at '='. */
  lemma LeadingEqualsSkipped()
    ensures Tokens("=x") == [("x", "")]
  {
    SeparatorSkipped("=x", 0);
    assert "=x" == "=" + "x";
    TokensFromShift("=", "x", 0);
    var f := Field("x", None);
    assert WellFormedField(f) && Render([f]) == "x";
    TokensOfRender([f]);
    assert Pairs([f]) == [("x", "")];
  }

  // ---------------------------------------------------------------------
  // Key paths

  predicate Plain(s: string) {
    '[' !in s && ']' !in s
  }

  /** `[s1][s2]...` */
  function Brackets(segs: seq<string>): string
    decreases |segs|
  {
    if |segs| == 0 then "" else "[" + segs[0] + "]" + Brackets(segs[1..])
  }

  /** The `"]["`-pieces of `x + "]" + Brackets(rest)`. */
  function Pieces(x: string, rest: seq<string>): (r: seq<string>)
    ensures |r| == |rest| + 1
    decreases |rest|
  {
    if |rest| == 0 then [x + "]"] else [x] + Pieces(rest[0], rest[1..])
  }

  lemma SplitNoChar(s: string, c: char)
    requires c !in s
    ensures Split(s, [c]) == [s]
  {
    forall i: nat ensures !OccursAt(s, [c], i) {
      if i + 1 <= |s| {
        assert s[i..i + 1][0] == s[i];
      }
    }
    SplitWithout(s, [c]);
  }

  lemma {:induction false} SplitTail(x: string, rest: seq<string>)
    requires ']' !in x
    requires forall i :: 0 <= i < |rest| ==> ']' !in rest[i]
    ensures Split(x + "]" + Brackets(rest), "][") == Pieces(x, rest)
    decreases |rest|
  {
    if |rest| == 0 {
      var t := x + "]";
      assert x + "]" + Brackets(rest) == t;
      forall i: nat ensures !OccursAt(t, "][", i) {
        if i + 2 <= |t| {
          assert t[i..i + 2][0] == t[i] == x[i];
        }
      }
      SplitWithout(t, "][");
    } else {
      var tail := rest[0] + "]" + Brackets(rest[1..]);
      assert x + "]" + Brackets(rest) == x + "][" + tail;
      SplitAfter(x, "][", tail);
      SplitTail(rest[0], rest[1..]);
    }
  }

  lemma {:induction false} PiecesShape(x: string, rest: seq<string>)
    ensures var p := Pieces(x, rest);
      && p[0] == (if |rest| == 0 then x + "]" else x)
      && p[|p| - 1] == (if |rest| == 0 then x else rest[|rest| - 1]) + "]"
      && p[|p| - 1 := (if |rest| == 0 then x else rest[|rest| - 1])] == [x] + rest
    decreases |rest|
  {
    if |rest| > 0 {
      PiecesShape(rest[0], rest[1..]);
      if |rest| > 1 {
        assert rest[1..][|rest| - 2] == rest[|rest| - 1];
      }
      assert [rest[0]] + rest[1..] == rest;
    }
  }

  /** After the "]["-split of a bracketed key: the first piece holds '[',
      and dropping the last piece's trailing ']' leaves `[x] + rest`. */
  lemma PiecesStripped(x: string, rest: seq<string>, j: nat)
    requires j < |x| && x[j] == '['
    ensures var p := Pieces(x, rest); var last := |p| - 1;
      && '[' in p[0]
      && EndsWith(p[last], ']')
      && p[last := p[last][..|p[last]| - 1]] == [x] + rest
  {
    PiecesShape(x, rest);
    var p := Pieces(x, rest);
    assert p[0][j] == '[';
    var last := |p| - 1;
    var y := if |rest| == 0 then x else rest[|rest| - 1];
    assert p[last] == y + "]";
    assert p[last][..|p[last]| - 1] == y;
  }

  /** `SplitKey` on a key whose "]["-pieces are known to be bracketed. */
  lemma SplitKeyOfPieces(k: string, x: string, rest: seq<string>)
    requires Split(k, "][") == Pieces(x, rest)
    requires var p := Pieces(x, rest); var last := |p| - 1;
      && '[' in p[0]
      && EndsWith(p[last], ']')
      && p[last := p[last][..|p[last]| - 1]] == [x] + rest
    ensures SplitKey(k) == Split(x, "[") + rest
  {
    var p := Pieces(x, rest);
    var last := |p| - 1;
    var stripped := p[last := p[last][..|p[last]| - 1]];
    assert stripped[0] == x && stripped[1..] == rest;
  }

  /** The "]["-stage of cutting `base[s1]...[sn]`. */
  lemma {:induction false} BracketKeyPieces(base: string, segs: seq<string>)
    requires Plain(base)
    requires |segs| >= 1 && forall i :: 0 <= i < |segs| ==> Plain(segs[i])
    ensures SplitKey(base + Brackets(segs)) == Split(base + "[" + segs[0], "[") + segs[1..]
  {
    var k := base + Brackets(segs);
    var x := base + "[" + segs[0];
    assert k == x + "]" + Brackets(segs[1..]);
    SplitTail(x, segs[1..]);
    assert x[|base|] == '[';
    PiecesStripped(x, segs[1..], |base|);
    SplitKeyOfPieces(k, x, segs[1..]);
  }

  /** A bracketed key `base[s1]...[sn]` is cut into `[base, s1, ..., sn]`. */
  lemma {:induction false} SplitKeyBrackets(base: string, segs: seq<string>)
    requires Plain(base)
    requires |segs| >= 1 && forall i :: 0 <= i < |segs| ==> Plain(segs[i])
    ensures SplitKey(base + Brackets(segs)) == [base] + segs
  {
    BracketKeyPieces(base, segs);
    SplitBase(base, segs[0]);
    assert [base, segs[0]] + segs[1..] == [base] + segs;
  }

  lemma SplitBase(base: string, s0: string)
    requires Plain(base) && Plain(s0)
    ensures Split(base + "[" + s0, "[") == [base, s0]
  {
    SplitAfter(base, "[", s0);
    SplitNoChar(s0, '[');
  }

  /** A key stays whole exactly when it holds no "][" and is not of the form
      `...[...]`. */
  lemma SplitKeySingle(k: string)
    ensures |SplitKey(k)| == 1 <==> !Occurs(k, "][") && !('[' in k && EndsWith(k, ']'))
    ensures |SplitKey(k)| == 1 ==> SplitKey(k) == [k]
  {
    var pieces := Split(k, "][");
    SplitSingleIff(k, "][");
    if !Occurs(k, "][") {
      forall i: nat ensures !OccursAt(k, "][", i) {
        if i <= |k| {
          assert !OccursAt(k, "][", i);
        }
      }
      SplitWithout(k, "][");
      if '[' in k && EndsWith(k, ']') {
        var j :| 0 <= j < |k| && k[j] == '[';
        var k' := k[..|k| - 1];
        assert k'[j] == '[';
        assert OccursAt(k', "[", j);
        SplitWith(k', "[", j);
      }
    }
  }

  /** "a[b][c]" is the path [a, b, c]. */
  lemma SplitKeyNested()
    ensures SplitKey("a[b][c]") == ["a", "b", "c"]
  {
    assert "a[b][c]" == "a" + Brackets(["b", "c"]);
    SplitKeyBrackets("a", ["b", "c"]);
  }

  /** "a[]" is the path [a, ""], whose empty segment appends. */
  lemma SplitKeyAppend()
    ensures SplitKey("a[]") == ["a", ""]
  {
    assert "a[]" == "a" + Brackets([""]);
    SplitKeyBrackets("a", [""]);
  }

  // ---------------------------------------------------------------------
  // Walking a key path

  /** The value reached by following property names down from `c`. */
  function Lookup(c: Value, names: seq<string>): Value
    decreases |names|
  {
    if |names| == 0 then c else Lookup(Get(c, names[0]), names[1..])
  }

  /** Every value the walk passes through is a container it writes into,
      and none of them is an array asked for its `length`: an existing
      truthy child that is a primitive would swallow the rest, and a length
      takes a number rather than the value. */
  predicate Open(c: Value, path: seq<string>, h: Host)
    requires |path| >= 1
    decreases |path|
  {
    && IsContainer(c)
    && !Converts(c, path[0])
    && (|path| > 1 ==>
          if Truthy(Get(c, path[0])) then Open(Get(c, path[0]), path[1..], h)
          else Open(Fresh(path[1], h), path[1..], h))
  }

  lemma ArrayIndexOfNat(n: nat)
    requires n <= MaxArrayIndex
    ensures ArrayIndex(NatToString(n)) == Some(n)
  {
    NatToStringDigits(n);
  }

  /** Reading back a property just written into a container gives the
      value written, except an array's `length`, which gives the new
      length. */
  lemma GetPut(c: Value, k: string, x: Value, h: Host)
    requires IsContainer(c)
    ensures !Converts(c, k) ==> Put(c, k, x, h).Success? && Get(Put(c, k, x, h).value, k) == x
    ensures Converts(c, k) && NewLength(x, h).Some? ==>
      Put(c, k, x, h).Success? && Get(Put(c, k, x, h).value, k) == Number(NewLength(x, h).value as real)
  {
    if c.Arr? && k != "length" && ArrayIndex(k).Some? {
      var n := ArrayIndex(k).value;
      if n >= |c.elems| {
        var e := c.elems + Holes(n - |c.elems|) + [x];
        assert e[n] == x;
      }
    }
  }

  /** A fresh container can be walked along any path that names no
      `length`. */
  lemma {:induction false} FreshOpen(c: Value, path: seq<string>, h: Host)
    requires c == Obj(map[]) || c == Arr([], map[])
    requires |path| >= 1
    requires forall i :: 0 <= i < |path| ==> path[i] != "length"
    ensures Open(c, path, h)
    decreases |path|
  {
    assert !Truthy(Get(c, path[0]));
    if |path| > 1 {
      var f := Fresh(path[1], h);
      assert f == Obj(map[]) || f == Arr([], map[]);
      assert forall i :: 0 <= i < |path[1..]| ==> path[1..][i] == path[i + 1];
      FreshOpen(f, path[1..], h);
    }
  }

  /** The value given to a path of non-empty segments is found at that path
      afterwards, whatever was stored on the way. */
  lemma {:induction false} WalkStores(c: Value, path: seq<string>, v: Value, h: Host)
    requires |path| >= 1
    requires forall i :: 0 <= i < |path| ==> path[i] != ""
    requires Open(c, path, h)
    ensures Walk(c, path, v, h).Success?
    ensures Lookup(Walk(c, path, v, h).value, path) == v
    decreases |path|
  {
    var k := path[0];
    if |path| == 1 {
      GetPut(c, k, v, h);
    } else {
      var existing := Get(c, k);
      var child := if Truthy(existing) then existing else Fresh(path[1], h);
      assert forall i :: 0 <= i < |path[1..]| ==> path[1..][i] == path[i + 1];
      WalkStores(child, path[1..], v, h);
      GetPut(c, k, Walk(child, path[1..], v, h).value, h);
    }
  }

  /** An empty last segment appends to an array: it names the next index. */
  lemma AppendSegment(e: seq<Value>, props: map<string, Value>, v: Value, h: Host)
    requires |e| <= MaxArrayIndex
    ensures Walk(Arr(e, props), [""], v, h) == Success(Arr(e + [v], props))
  {
    ArrayIndexOfNat(|e|);
    assert Holes(0) == [];
    assert e + Holes(0) + [v] == e + [v];
  }

  /** `a[length]=x`: the array takes the new length, cut or grown with
      holes, or the assignment throws RangeError. */
  lemma LengthAssigned(e: seq<Value>, props: map<string, Value>, v: Value, h: Host)
    ensures NewLength(v, h).None? ==> Walk(Arr(e, props), ["length"], v, h) == Failure(RangeError)
    ensures NewLength(v, h).Some? ==>
      Walk(Arr(e, props), ["length"], v, h) == Success(Arr(Resize(e, NewLength(v, h).value), props))
  {
  }

  /** `a[length][...]=x` on a non-empty array: the child is the number
      `a.length`, assigning it back changes nothing, and the rest of the
      path is swallowed by that number. */
  lemma LengthWalkedThrough(e: seq<Value>, props: map<string, Value>, rest: seq<string>, v: Value, h: Host)
    requires 0 < |e| <= MaxArrayLength && |rest| >= 1
    ensures Walk(Arr(e, props), ["length"] + rest, v, h).Success? ==>
      Walk(Arr(e, props), ["length"] + rest, v, h).value == Arr(e, props)
  {
    var path := ["length"] + rest;
    assert path[0] == "length" && path[1..] == rest;
    assert Get(Arr(e, props), "length") == Number(|e| as real);
    assert NewLength(Number(|e| as real), h) == Some(|e|);
    assert Resize(e, |e|) == e;
  }

  /** A missing or falsy child is replaced by a fresh container: a mapping
      when the next segment is non-empty and not numeric, else an array. */
  lemma FreshChild(m: map<string, Value>, k: string, rest: seq<string>, v: Value, h: Host)
    requires k != "" && |rest| >= 1
    requires !(k in m && Truthy(m[k]))
    ensures var w := Walk(Fresh(rest[0], h), rest, v, h);
      && (w.Failure? ==> Walk(Obj(m), [k] + rest, v, h) == w)
      && (w.Success? ==> Walk(Obj(m), [k] + rest, v, h) == Success(Obj(m[k := w.value])))
      && (w.Success? ==> (w.value.Obj? <==> rest[0] != "" && IsNaN(h, rest[0])))
      && (w.Success? ==> (w.value.Arr? <==> !(rest[0] != "" && IsNaN(h, rest[0]))))
  {
    var path := [k] + rest;
    assert path[0] == k && path[1..] == rest && path[1] == rest[0];
  }

  /** A truthy child is reused, and the rest of the path is walked in it. */
  lemma ReuseChild(m: map<string, Value>, k: string, rest: seq<string>, v: Value, h: Host)
    requires k != "" && |rest| >= 1
    requires k in m && Truthy(m[k])
    ensures var w := Walk(m[k], rest, v, h);
      && (w.Failure? ==> Walk(Obj(m), [k] + rest, v, h) == w)
      && (w.Success? ==> Walk(Obj(m), [k] + rest, v, h) == Success(Obj(m[k := w.value])))
  {
    var path := [k] + rest;
    assert path[0] == k && path[1..] == rest;
  }

  /** A walk from the parameters changes only the property its first
      segment names. */
  lemma WalkFrame(m: map<string, Value>, path: seq<string>, v: Value, h: Host, other: string)
    requires |path| >= 1
    requires other != Resolve(Obj(m), path[0], h)
    requires Walk(Obj(m), path, v, h).Success?
    ensures Resolve(Obj(m), path[0], h) in Walk(Obj(m), path, v, h).value.fields
    ensures other in Walk(Obj(m), path, v, h).value.fields <==> other in m
    ensures other in m ==> Walk(Obj(m), path, v, h).value.fields[other] == m[other]
  {
  }

  // ---------------------------------------------------------------------
  // Repeated plain keys

  /** The values `vs`, in order, accumulated under the plain key `k`. */
  function Collect(params: map<string, Value>, k: string, vs: seq<Value>): map<string, Value>
    decreases |vs|
  {
    if |vs| == 0 then params
    else Accumulate(Collect(params, k, vs[..|vs| - 1]), k, vs[|vs| - 1])
  }

  /** A key first seen with a truthy non-array value, then seen again,
      holds all its values in input order. */
  lemma {:induction false} RepeatedKeyCollects(params: map<string, Value>, k: string, vs: seq<Value>)
    requires !(k in params && Truthy(params[k]))
    requires |vs| >= 1 && Truthy(vs[0]) && !vs[0].Arr?
    ensures k in Collect(params, k, vs)
    ensures Collect(params, k, vs)[k] == if |vs| == 1 then vs[0] else Arr(vs, map[])
    decreases |vs|
  {
    if |vs| > 1 {
      var init, last := vs[..|vs| - 1], vs[|vs| - 1];
      RepeatedKeyCollects(params, k, init);
      assert init[0] == vs[0];
      AccumulateExtends(Collect(params, k, init), k, init, last);
      assert init + [last] == vs;
    } else {
      assert vs[..0] == [];
    }
  }

  /** One more value under a key that holds the values `init` so far (one
      truthy non-array value, or an array of them) extends that array. */
  lemma AccumulateExtends(prev: map<string, Value>, k: string, init: seq<Value>, last: Value)
    requires |init| >= 1 && Truthy(init[0]) && !init[0].Arr?
    requires k in prev && prev[k] == if |init| == 1 then init[0] else Arr(init, map[])
    ensures Accumulate(prev, k, last)[k] == Arr(init + [last], map[])
  {
    if |init| == 1 {
      assert [init[0], last] == init + [last];
    }
  }

  /** Accumulating under one key leaves every other key as it was. */
  lemma {:induction false} CollectFrame(params: map<string, Value>, k: string, vs: seq<Value>, other: string)
    requires other != k
    ensures other in Collect(params, k, vs) <==> other in params
    ensures other in params ==> Collect(params, k, vs)[other] == params[other]
    decreases |vs|
  {
    if |vs| > 0 {
      CollectFrame(params, k, vs[..|vs| - 1], other);
    }
  }

  /** A key that already holds an array, say one built through `a[]`, keeps
      its elements and its other properties and gains the new values at the
      end, in order. */
  lemma {:induction false} CollectOntoArray(params: map<string, Value>, k: string, e: seq<Value>, props: map<string, Value>, vs: seq<Value>)
    requires k in params && params[k] == Arr(e, props)
    ensures k in Collect(params, k, vs) && Collect(params, k, vs)[k] == Arr(e + vs, props)
    decreases |vs|
  {
    if |vs| == 0 {
      assert e + vs == e;
    } else {
      var init := vs[..|vs| - 1];
      CollectOntoArray(params, k, e, props, init);
      assert (e + init) + [vs[|vs| - 1]] == e + vs;
    }
  }

  /** An empty first value is falsy, so it is overwritten, not collected. */
  lemma FalsyFirstValueReplaced()
    ensures Collect(map[], "k", [Str(""), Str("x")]) == map["k" := Str("x")]
  {
    assert [Str(""), Str("x")][..1] == [Str("")];
    assert [Str("")][..0] == [];
  }

  // ---------------------------------------------------------------------
  // Coercion

  /** For strings that are not numbers, the intended coercion maps the four
      literals to their values; numbers become numbers. */
  lemma CoerceLiterals(h: Host, v: string)
    requires IsNaN(h, "true") && IsNaN(h, "false") && IsNaN(h, "null") && IsNaN(h, "undefined")
    ensures Coerce("true", h) == Bool(true)
    ensures Coerce("false", h) == Bool(false)
    ensures Coerce("null", h) == Null
    ensures Coerce("undefined", h) == Undefined
    ensures h.toNumber(v).Some? ==> Coerce(v, h) == Number(h.toNumber(v).value)
    ensures IsNaN(h, v) && v !in CoerceTypes && v != "undefined" ==> Coerce(v, h) == Str(v)
  {
  }

  /** As written, the truthiness test keeps "false" and "null" as strings. */
  lemma CoerceAsWrittenKeepsFalsy(h: Host)
    requires IsNaN(h, "false") && IsNaN(h, "null")
    ensures CoerceAsWritten("false", h) == Str("false") != Coerce("false", h)
    ensures CoerceAsWritten("null", h) == Str("null") != Coerce("null", h)
  {
  }

  /** Those two strings are the only difference. */
  lemma CoerceAsWrittenAgrees(h: Host, v: string)
    requires v != "false" && v != "null"
    ensures CoerceAsWritten(v, h) == Coerce(v, h)
  {
  }

  // ---------------------------------------------------------------------
  // Whole parses

  /** An empty query, with or without its '?', gives no parameters. */
  lemma ParseEmpty(coerce: bool, h: Host)
    ensures Parse("", coerce, h) == Success(map[])
    ensures Parse("?", coerce, h) == Success(map[])
  {
  }

  /** Only one leading '?' is dropped: a second one belongs to the key. */
  lemma OneQuestionMarkStripped(q: string)
    ensures StripQuestionMark("?" + q) == q
  {
  }

  /** A step changes only the parameter its decoded key leads to. */
  lemma StepFrame(params: map<string, Value>, token: (string, string), coerce: bool, h: Host, other: string)
    requires Step(params, token, coerce, h).Success?
    requires Decode(h, token.0).Some?
    requires var k := Decode(h, token.0).value;
      other != (if |SplitKey(k)| > 1 then Resolve(Obj(params), SplitKey(k)[0], h) else k)
    ensures var p := Step(params, token, coerce, h).value;
      && (other in p <==> other in params)
      && (other in params ==> p[other] == params[other])
  {
    var k := Decode(h, token.0).value;
    var raw := Decode(h, token.1).value;
    if |SplitKey(k)| > 1 {
      var v := if coerce then CoerceAsWritten(raw, h) else Str(raw);
      WalkFrame(params, SplitKey(k), v, h, other);
    }
  }

  predicate Decodable(h: Host, token: (string, string)) {
    Decode(h, token.0).Some? && Decode(h, token.1).Some?
  }

  /** A match whose key or value cannot be decoded makes the fold fail, and
      a URIError comes from nothing else. (A RangeError from an earlier
      match may end the fold first.) */
  lemma {:induction false} UndecodableFails(params: map<string, Value>, tokens: seq<(string, string)>, coerce: bool, h: Host)
    ensures (exists i :: 0 <= i < |tokens| && !Decodable(h, tokens[i])) ==> ApplyAll(params, tokens, coerce, h).Failure?
    ensures ApplyAll(params, tokens, coerce, h) == Failure(UriError) ==>
      exists i :: 0 <= i < |tokens| && !Decodable(h, tokens[i])
    decreases |tokens|
  {
    if |tokens| > 0 {
      ApplyAllCons(params, tokens[0], tokens[1..], coerce, h);
      assert [tokens[0]] + tokens[1..] == tokens;
      var st := Step(params, tokens[0], coerce, h);
      assert !Decodable(h, tokens[0]) ==> st == Failure(UriError);
      assert st == Failure(UriError) ==> !Decodable(h, tokens[0]);
      if st.Success? {
        UndecodableFails(st.value, tokens[1..], coerce, h);
        if exists i :: 0 <= i < |tokens| && !Decodable(h, tokens[i]) {
          var i :| 0 <= i < |tokens| && !Decodable(h, tokens[i]);
          assert i > 0 && tokens[1..][i - 1] == tokens[i];
        }
        if exists i :: 0 <= i < |tokens[1..]| && !Decodable(h, tokens[1..][i]) {
          var i :| 0 <= i < |tokens[1..]| && !Decodable(h, tokens[1..][i]);
          assert tokens[i + 1] == tokens[1..][i];
        }
      }
    }
  }

  /** `parseStr` throws when one of the query's matches does not decode,
      and throws URIError only then. */
  lemma ParseUndecodableFails(queryString: string, coerce: bool, h: Host)
    ensures var tokens := Tokens(StripQuestionMark(queryString));
      && ((exists i :: 0 <= i < |tokens| && !Decodable(h, tokens[i])) ==> Parse(queryString, coerce, h).Failure?)
      && (Parse(queryString, coerce, h) == Failure(UriError) ==> exists i :: 0 <= i < |tokens| && !Decodable(h, tokens[i]))
  {
    var q := StripQuestionMark(queryString);
    if q == "" {
      assert SkipFrom(q, 0) == 0;
      assert Tokens(q) == [];
    } else {
      UndecodableFails(map[], Tokens(q), coerce, h);
    }
  }

  /** The host's decoder leaves `text` unchanged. */
  predicate DecodesPlainly(h: Host, text: string) {
    h.decodeUriComponent(text) == Some(text)
  }

  /** Without '+' the replacement changes nothing. */
  lemma {:induction false} ReplacePlusNoPlus(s: string)
    requires '+' !in s
    ensures ReplacePlus(s) == s
    decreases |s|
  {
    if |s| > 0 {
      assert '+' !in s[1..] by {
        forall c | c in s[1..] ensures c != '+' { assert c in s; }
      }
      ReplacePlusNoPlus(s[1..]);
      assert [s[0]] + s[1..] == s;
    }
  }

  /** Text without '+' that the host decodes to itself is decoded plainly. */
  lemma DecodePlain(h: Host, s: string)
    requires DecodesPlainly(h, s) && '+' !in s
    ensures Decode(h, s) == Some(s)
  {
    ReplacePlusNoPlus(s);
  }

  /** A step on a key that decodes to itself and is one segment accumulates
      the value, coerced as written, under that key, unless that would push
      onto a full array. */
  lemma StepPlainKey(params: map<string, Value>, k: string, raw: string, coerce: bool, h: Host)
    requires Decode(h, k) == Some(k) && Decode(h, raw) == Some(raw)
    requires SplitKey(k) == [k]
    ensures PushOverflows(params, k) ==> Step(params, (k, raw), coerce, h) == Failure(RangeError)
    ensures !PushOverflows(params, k) ==>
      Step(params, (k, raw), coerce, h) == Success(Accumulate(params, k, if coerce then CoerceAsWritten(raw, h) else Str(raw)))
  {
  }

  /** A step on a key that decodes to itself and splits into a path of
      several segments walks that path with the value, coerced as written. */
  lemma StepPathKey(params: map<string, Value>, k: string, raw: string, path: seq<string>, coerce: bool, h: Host)
    requires Decode(h, k) == Some(k) && Decode(h, raw) == Some(raw)
    requires SplitKey(k) == path && |path| > 1
    ensures var w := Walk(Obj(params), path, if coerce then CoerceAsWritten(raw, h) else Str(raw), h);
      && (w.Failure? ==> Step(params, (k, raw), coerce, h) == Failure(w.error))
      && (w.Success? ==> Step(params, (k, raw), coerce, h) == Success(w.value.fields))
  {
  }

  lemma TokensAB()
    ensures Tokens("a=1&b=2") == [("a", "1"), ("b", "2")]
  {
    var fields := [Field("a", Some("1")), Field("b", Some("2"))];
    assert WellFormedField(fields[0]) && WellFormedField(fields[1]);
    assert Render(fields) == "a=1&b=2";
    TokensOfRender(fields);
    assert Pairs(fields) == [("a", "1"), ("b", "2")];
  }

  /** A query of two matches is parsed by two steps. */
  lemma ParseTwo(q: string, t1: (string, string), t2: (string, string), p1: map<string, Value>, p2: map<string, Value>, coerce: bool, h: Host)
    requires q != "" && q[0] != '?'
    requires Tokens(q) == [t1, t2]
    requires Step(map[], t1, coerce, h) == Success(p1)
    requires Step(p1, t2, coerce, h) == Success(p2)
    ensures Parse(q, coerce, h) == Success(p2)
  {
    ApplyAllCons(map[], t1, [t2], coerce, h);
    ApplyAllCons(p1, t2, [], coerce, h);
    assert [t1] + [t2] == [t1, t2] && [t2] + [] == [t2];
  }

  lemma FlatDecodes(h: Host)
    requires DecodesPlainly(h, "a") && DecodesPlainly(h, "b") && DecodesPlainly(h, "1") && DecodesPlainly(h, "2")
    ensures Decode(h, "a") == Some("a") && Decode(h, "b") == Some("b")
    ensures Decode(h, "1") == Some("1") && Decode(h, "2") == Some("2")
  {
    DecodePlain(h, "a");
    DecodePlain(h, "b");
    DecodePlain(h, "1");
    DecodePlain(h, "2");
  }

  /** `parseStr("a=1&b=2")` is `{a: "1", b: "2"}`. */
  lemma ParseFlat(h: Host)
    requires DecodesPlainly(h, "a") && DecodesPlainly(h, "b") && DecodesPlainly(h, "1") && DecodesPlainly(h, "2")
    ensures Parse("a=1&b=2", false, h) == Success(map["a" := Str("1"), "b" := Str("2")])
  {
    TokensAB();
    FlatDecodes(h);
    SplitKeyPlain();
    var p1 := map["a" := Str("1")];
    StepPlainKey(map[], "a", "1", false, h);
    StepPlainKey(p1, "b", "2", false, h);
    ParseTwo("a=1&b=2", ("a", "1"), ("b", "2"), p1, map["a" := Str("1"), "b" := Str("2")], false, h);
  }

  /** With coercion it is `{a: 1, b: 2}`. */
  lemma ParseFlatCoerced(h: Host)
    requires DecodesPlainly(h, "a") && DecodesPlainly(h, "b") && DecodesPlainly(h, "1") && DecodesPlainly(h, "2")
    requires h.toNumber("1") == Some(1.0) && h.toNumber("2") == Some(2.0)
    ensures Parse("a=1&b=2", true, h) == Success(map["a" := Number(1.0), "b" := Number(2.0)])
  {
    TokensAB();
    FlatDecodes(h);
    SplitKeyPlain();
    var p1 := map["a" := Number(1.0)];
    StepPlainKey(map[], "a", "1", true, h);
    StepPlainKey(p1, "b", "2", true, h);
    ParseTwo("a=1&b=2", ("a", "1"), ("b", "2"), p1, map["a" := Number(1.0), "b" := Number(2.0)], true, h);
  }

  lemma SplitKeyPlain()
    ensures SplitKey("a") == ["a"] && SplitKey("b") == ["b"]
  {
    SplitKeySingle("a");
    SplitKeySingle("b");
  }

  /** A query made of two well-formed fields. */
  lemma TokensTwo(f1: Field, f2: Field)
    requires WellFormedField(f1) && WellFormedField(f2)
    ensures Tokens(FieldText(f1) + "&" + FieldText(f2)) == [(f1.key, f1.value.GetOr("")), (f2.key, f2.value.GetOr(""))]
  {
    assert Render([f1, f2]) == FieldText(f1) + "&" + FieldText(f2) by {
      assert [f1, f2][1..] == [f2];
    }
    TokensOfRender([f1, f2]);
    assert [f1, f2][1..] == [f2] && [f2][1..] == [];
    assert Pairs([f2]) == [(f2.key, f2.value.GetOr(""))];
  }

  /** The walks behind "a[]=1&a[]=2": a fresh array under "a" receives "1"
      at index 0, then the same array receives "2" at index 1. */
  lemma ArrayWalks(h: Host)
    ensures Walk(Obj(map[]), ["a", ""], Str("1"), h) == Success(Obj(map["a" := Arr([Str("1")], map[])]))
    ensures Walk(Obj(map["a" := Arr([Str("1")], map[])]), ["a", ""], Str("2"), h)
         == Success(Obj(map["a" := Arr([Str("1"), Str("2")], map[])]))
  {
    assert ["a", ""] == ["a"] + [""];
    FreshChild(map[], "a", [""], Str("1"), h);
    AppendSegment([], map[], Str("1"), h);
    assert [] + [Str("1")] == [Str("1")];
    var p1 := map["a" := Arr([Str("1")], map[])];
    ReuseChild(p1, "a", [""], Str("2"), h);
    AppendSegment([Str("1")], map[], Str("2"), h);
    assert [Str("1")] + [Str("2")] == [Str("1"), Str("2")];
    assert p1["a" := Arr([Str("1"), Str("2")], map[])] == map["a" := Arr([Str("1"), Str("2")], map[])];
  }

  lemma ArraySteps(h: Host)
    requires DecodesPlainly(h, "a[]") && DecodesPlainly(h, "1") && DecodesPlainly(h, "2")
    ensures Step(map[], ("a[]", "1"), false, h) == Success(map["a" := Arr([Str("1")], map[])])
    ensures Step(map["a" := Arr([Str("1")], map[])], ("a[]", "2"), false, h)
         == Success(map["a" := Arr([Str("1"), Str("2")], map[])])
  {
    DecodePlain(h, "a[]");
    DecodePlain(h, "1");
    DecodePlain(h, "2");
    SplitKeyAppend();
    StepPathKey(map[], "a[]", "1", ["a", ""], false, h);
    StepPathKey(map["a" := Arr([Str("1")], map[])], "a[]", "2", ["a", ""], false, h);
    ArrayWalks(h);
  }

  /** `parseStr("a[]=1&a[]=2")` is `{a: ["1", "2"]}`. */
  lemma ParseArray(h: Host)
    requires DecodesPlainly(h, "a[]") && DecodesPlainly(h, "1") && DecodesPlainly(h, "2")
    ensures Parse("a[]=1&a[]=2", false, h) == Success(map["a" := Arr([Str("1"), Str("2")], map[])])
  {
    var f1, f2 := Field("a[]", Some("1")), Field("a[]", Some("2"));
    assert FieldText(f1) + "&" + FieldText(f2) == "a[]=1&a[]=2";
    TokensTwo(f1, f2);
    ArraySteps(h);
    ParseTwo("a[]=1&a[]=2", ("a[]", "1"), ("a[]", "2"),
      map["a" := Arr([Str("1")], map[])], map["a" := Arr([Str("1"), Str("2")], map[])], false, h);
  }

  lemma SplitKeyNamed()
    ensures SplitKey("a[b]") == ["a", "b"] && SplitKey("a[c]") == ["a", "c"]
  {
    assert "a[b]" == "a" + Brackets(["b"]) && "a[c]" == "a" + Brackets(["c"]);
    SplitKeyBrackets("a", ["b"]);
    SplitKeyBrackets("a", ["c"]);
  }

  /** The walks behind "a[b]=1&a[c]=2": "b" is not numeric, so a fresh
      mapping is created under "a"; the second walk reuses it. */
  lemma ObjectWalks(h: Host)
    requires IsNaN(h, "b")
    ensures Walk(Obj(map[]), ["a", "b"], Str("1"), h) == Success(Obj(map["a" := Obj(map["b" := Str("1")])]))
    ensures Walk(Obj(map["a" := Obj(map["b" := Str("1")])]), ["a", "c"], Str("2"), h)
         == Success(Obj(map["a" := Obj(map["b" := Str("1"), "c" := Str("2")])]))
  {
    assert ["a", "b"] == ["a"] + ["b"] && ["a", "c"] == ["a"] + ["c"];
    FreshChild(map[], "a", ["b"], Str("1"), h);
    var p1 := map["a" := Obj(map["b" := Str("1")])];
    ReuseChild(p1, "a", ["c"], Str("2"), h);
    assert Walk(Obj(map["b" := Str("1")]), ["c"], Str("2"), h) == Success(Obj(map["b" := Str("1"), "c" := Str("2")]));
    assert p1["a" := Obj(map["b" := Str("1"), "c" := Str("2")])] == map["a" := Obj(map["b" := Str("1"), "c" := Str("2")])];
  }

  lemma ObjectSteps(h: Host)
    requires DecodesPlainly(h, "a[b]") && DecodesPlainly(h, "a[c]") && DecodesPlainly(h, "1") && DecodesPlainly(h, "2")
    requires IsNaN(h, "b")
    ensures Step(map[], ("a[b]", "1"), false, h) == Success(map["a" := Obj(map["b" := Str("1")])])
    ensures Step(map["a" := Obj(map["b" := Str("1")])], ("a[c]", "2"), false, h)
         == Success(map["a" := Obj(map["b" := Str("1"), "c" := Str("2")])])
  {
    DecodePlain(h, "a[b]");
    DecodePlain(h, "a[c]");
    DecodePlain(h, "1");
    DecodePlain(h, "2");
    SplitKeyNamed();
    StepPathKey(map[], "a[b]", "1", ["a", "b"], false, h);
    StepPathKey(map["a" := Obj(map["b" := Str("1")])], "a[c]", "2", ["a", "c"], false, h);
    ObjectWalks(h);
  }

  /** `parseStr("a[b]=1&a[c]=2")` is `{a: {b: "1", c: "2"}}`. */
  lemma ParseObject(h: Host)
    requires DecodesPlainly(h, "a[b]") && DecodesPlainly(h, "a[c]") && DecodesPlainly(h, "1") && DecodesPlainly(h, "2")
    requires IsNaN(h, "b")
    ensures Parse("a[b]=1&a[c]=2", false, h) == Success(map["a" := Obj(map["b" := Str("1"), "c" := Str("2")])])
  {
    var f1, f2 := Field("a[b]", Some("1")), Field("a[c]", Some("2"));
    assert FieldText(f1) + "&" + FieldText(f2) == "a[b]=1&a[c]=2";
    TokensTwo(f1, f2);
    ObjectSteps(h);
    ParseTwo("a[b]=1&a[c]=2", ("a[b]", "1"), ("a[c]", "2"),
      map["a" := Obj(map["b" := Str("1")])], map["a" := Obj(map["b" := Str("1"), "c" := Str("2")])], false, h);
  }

  /** A query of two matches whose second step throws. */
  lemma ParseTwoFails(q: string, t1: (string, string), t2: (string, string), p1: map<string, Value>, coerce: bool, h: Host)
    requires q != "" && q[0] != '?'
    requires Tokens(q) == [t1, t2]
    requires Step(map[], t1, coerce, h) == Success(p1)
    requires Step(p1, t2, coerce, h).Failure?
    ensures Parse(q, coerce, h) == Step(p1, t2, coerce, h)
  {
    ApplyAllCons(map[], t1, [t2], coerce, h);
    ApplyAllCons(p1, t2, [], coerce, h);
    assert [t1] + [t2] == [t1, t2] && [t2] + [] == [t2];
  }

  /** A query of one match is parsed by one step. */
  lemma ParseOne(q: string, t1: (string, string), coerce: bool, h: Host)
    requires q != "" && q[0] != '?'
    requires Tokens(q) == [t1]
    ensures Parse(q, coerce, h) == Step(map[], t1, coerce, h)
  {
    ApplyAllCons(map[], t1, [], coerce, h);
    assert [t1] + [] == [t1];
  }

  // ---------------------------------------------------------------------
  // Coercion as written, through whole parses

  lemma TokensOne(f: Field)
    requires WellFormedField(f)
    ensures Tokens(FieldText(f)) == [(f.key, f.value.GetOr(""))]
  {
    TokensOfRender([f]);
    assert [f][1..] == [];
    assert Pairs([f]) == [(f.key, f.value.GetOr(""))];
  }

  /** The first step behind "a=false" under coercion. */
  lemma FalseStep(h: Host)
    requires DecodesPlainly(h, "a") && DecodesPlainly(h, "false") && IsNaN(h, "false")
    ensures Step(map[], ("a", "false"), true, h) == Success(map["a" := Str("false")])
  {
    DecodePlain(h, "a");
    DecodePlain(h, "false");
    SplitKeySingle("a");
    StepPlainKey(map[], "a", "false", true, h);
  }

  /** The second step behind "a=false&a=1" under coercion. */
  lemma OneAfterFalseStep(h: Host)
    requires DecodesPlainly(h, "a") && DecodesPlainly(h, "1") && h.toNumber("1") == Some(1.0)
    ensures Step(map["a" := Str("false")], ("a", "1"), true, h)
         == Success(map["a" := Arr([Str("false"), Number(1.0)], map[])])
  {
    DecodePlain(h, "a");
    DecodePlain(h, "1");
    SplitKeySingle("a");
    var p1 := map["a" := Str("false")];
    StepPlainKey(p1, "a", "1", true, h);
    assert CoerceAsWritten("1", h) == Number(1.0);
    assert Truthy(p1["a"]) && !PushOverflows(p1, "a");
    assert p1["a" := Arr([Str("false"), Number(1.0)], map[])] == map["a" := Arr([Str("false"), Number(1.0)], map[])];
  }

  /** `parseStr("a=false", true)` keeps the string "false". */
  lemma ParseFalseStaysString(h: Host)
    requires DecodesPlainly(h, "a") && DecodesPlainly(h, "false") && IsNaN(h, "false")
    ensures Parse("a=false", true, h) == Success(map["a" := Str("false")])
  {
    var f := Field("a", Some("false"));
    assert WellFormedField(f) && FieldText(f) == "a=false";
    TokensOne(f);
    ParseOne("a=false", ("a", "false"), true, h);
    FalseStep(h);
  }

  lemma FalseThenOneTokens()
    ensures Tokens("a=false&a=1") == [("a", "false"), ("a", "1")]
  {
    var f1, f2 := Field("a", Some("false")), Field("a", Some("1"));
    assert FieldText(f1) + "&" + FieldText(f2) == "a=false&a=1";
    TokensTwo(f1, f2);
  }

  /** `parseStr("a=false&a=1", true)`: the string "false" is truthy, so the
      second value is collected with it. */
  lemma ParseFalseThenOne(h: Host)
    requires DecodesPlainly(h, "a") && DecodesPlainly(h, "false") && DecodesPlainly(h, "1")
    requires IsNaN(h, "false") && h.toNumber("1") == Some(1.0)
    ensures Parse("a=false&a=1", true, h) == Success(map["a" := Arr([Str("false"), Number(1.0)], map[])])
  {
    FalseThenOneTokens();
    FalseStep(h);
    OneAfterFalseStep(h);
    ParseTwo("a=false&a=1", ("a", "false"), ("a", "1"),
      map["a" := Str("false")], map["a" := Arr([Str("false"), Number(1.0)], map[])], true, h);
  }

  /** Under the intended coercion the first value would be `false`, falsy,
      and the second would replace it. */
  lemma IntendedFalseReplaced(h: Host)
    requires IsNaN(h, "false") && h.toNumber("1") == Some(1.0)
    ensures Collect(map[], "a", [CoerceAsWritten("false", h), CoerceAsWritten("1", h)])
         == map["a" := Arr([Str("false"), Number(1.0)], map[])]
    ensures Collect(map[], "a", [Coerce("false", h), Coerce("1", h)]) == map["a" := Number(1.0)]
  {
    var w := [CoerceAsWritten("false", h), CoerceAsWritten("1", h)];
    assert w == [Str("false"), Number(1.0)];
    assert w[..1] == [Str("false")] && w[..1][..0] == [];
    var c := [Coerce("false", h), Coerce("1", h)];
    assert c == [Bool(false), Number(1.0)];
    assert c[..1] == [Bool(false)] && c[..1][..0] == [];
  }

  // ---------------------------------------------------------------------
  // An array's length, through whole parses

  lemma SplitKeyLength()
    ensures SplitKey("a[length]") == ["a", "length"]
  {
    assert "a[length]" == "a" + Brackets(["length"]);
    SplitKeyBrackets("a", ["length"]);
  }

  /** The walk behind `a[length]=x` on the array ["1"]. */
  lemma LengthWalk(x: string, h: Host)
    ensures var w := Walk(Obj(map["a" := Arr([Str("1")], map[])]), ["a", "length"], Str(x), h);
      && (h.toNumber(x) == Some(0.0) ==> w == Success(Obj(map["a" := Arr([], map[])])))
      && (h.toNumber(x).None? ==> w == Failure(RangeError))
  {
    var p1 := map["a" := Arr([Str("1")], map[])];
    assert ["a", "length"] == ["a"] + ["length"];
    ReuseChild(p1, "a", ["length"], Str(x), h);
    LengthAssigned([Str("1")], map[], Str(x), h);
    if h.toNumber(x) == Some(0.0) {
      assert NewLength(Str(x), h) == Some(0);
      assert Resize([Str("1")], 0) == [];
      assert p1["a" := Arr([], map[])] == map["a" := Arr([], map[])];
    }
  }

  lemma LengthSteps(x: string, h: Host)
    requires DecodesPlainly(h, "a[]") && DecodesPlainly(h, "1") && DecodesPlainly(h, "a[length]") && DecodesPlainly(h, x)
    requires '+' !in x
    ensures Step(map[], ("a[]", "1"), false, h) == Success(map["a" := Arr([Str("1")], map[])])
    ensures var st := Step(map["a" := Arr([Str("1")], map[])], ("a[length]", x), false, h);
      && (h.toNumber(x) == Some(0.0) ==> st == Success(map["a" := Arr([], map[])]))
      && (h.toNumber(x).None? ==> st == Failure(RangeError))
  {
    DecodePlain(h, "a[]");
    DecodePlain(h, "1");
    DecodePlain(h, "a[length]");
    DecodePlain(h, x);
    SplitKeyAppend();
    SplitKeyLength();
    StepPathKey(map[], "a[]", "1", ["a", ""], false, h);
    ArrayWalks(h);
    StepPathKey(map["a" := Arr([Str("1")], map[])], "a[length]", x, ["a", "length"], false, h);
    LengthWalk(x, h);
  }

  /** `parseStr("a[]=1&a[length]=0")` empties the array: `{a: []}`. */
  lemma ParseLengthCut(h: Host)
    requires DecodesPlainly(h, "a[]") && DecodesPlainly(h, "1") && DecodesPlainly(h, "a[length]") && DecodesPlainly(h, "0")
    requires h.toNumber("0") == Some(0.0)
    ensures Parse("a[]=1&a[length]=0", false, h) == Success(map["a" := Arr([], map[])])
  {
    var f1, f2 := Field("a[]", Some("1")), Field("a[length]", Some("0"));
    assert FieldText(f1) + "&" + FieldText(f2) == "a[]=1&a[length]=0";
    TokensTwo(f1, f2);
    LengthSteps("0", h);
    ParseTwo("a[]=1&a[length]=0", ("a[]", "1"), ("a[length]", "0"),
      map["a" := Arr([Str("1")], map[])], map["a" := Arr([], map[])], false, h);
  }

  /** `parseStr("a[]=1&a[length]=x")` throws RangeError. */
  lemma ParseLengthInvalid(h: Host)
    requires DecodesPlainly(h, "a[]") && DecodesPlainly(h, "1") && DecodesPlainly(h, "a[length]") && DecodesPlainly(h, "x")
    requires IsNaN(h, "x")
    ensures Parse("a[]=1&a[length]=x", false, h) == Failure(RangeError)
  {
    var f1, f2 := Field("a[]", Some("1")), Field("a[length]", Some("x"));
    assert FieldText(f1) + "&" + FieldText(f2) == "a[]=1&a[length]=x";
    TokensTwo(f1, f2);
    LengthSteps("x", h);
    ParseTwoFails("a[]=1&a[length]=x", ("a[]", "1"), ("a[length]", "x"),
      map["a" := Arr([Str("1")], map[])], false, h);
  }

  // ---------------------------------------------------------------------
  // An empty segment under an object, and a plain key after `a[]`

  /** The walks behind "a[x]=1&a[]=2": "x" is not numeric, so "a" becomes
      an object; that object has no `length`, so the empty segment names the
      property "undefined". */
  lemma UndefinedKeyWalks(h: Host)
    requires IsNaN(h, "x")
    ensures Walk(Obj(map[]), ["a", "x"], Str("1"), h) == Success(Obj(map["a" := Obj(map["x" := Str("1")])]))
    ensures Walk(Obj(map["a" := Obj(map["x" := Str("1")])]), ["a", ""], Str("2"), h)
         == Success(Obj(map["a" := Obj(map["x" := Str("1"), "undefined" := Str("2")])]))
  {
    assert ["a", "x"] == ["a"] + ["x"] && ["a", ""] == ["a"] + [""];
    FreshChild(map[], "a", ["x"], Str("1"), h);
    var p1 := map["a" := Obj(map["x" := Str("1")])];
    ReuseChild(p1, "a", [""], Str("2"), h);
    assert Resolve(Obj(map["x" := Str("1")]), "", h) == "undefined";
    assert Walk(Obj(map["x" := Str("1")]), [""], Str("2"), h) == Success(Obj(map["x" := Str("1"), "undefined" := Str("2")]));
    assert p1["a" := Obj(map["x" := Str("1"), "undefined" := Str("2")])] == map["a" := Obj(map["x" := Str("1"), "undefined" := Str("2")])];
  }

  lemma UndefinedKeySteps(h: Host)
    requires DecodesPlainly(h, "a[x]") && DecodesPlainly(h, "a[]") && DecodesPlainly(h, "1") && DecodesPlainly(h, "2")
    requires IsNaN(h, "x")
    ensures Step(map[], ("a[x]", "1"), false, h) == Success(map["a" := Obj(map["x" := Str("1")])])
    ensures Step(map["a" := Obj(map["x" := Str("1")])], ("a[]", "2"), false, h)
         == Success(map["a" := Obj(map["x" := Str("1"), "undefined" := Str("2")])])
  {
    DecodePlain(h, "a[x]");
    DecodePlain(h, "a[]");
    DecodePlain(h, "1");
    DecodePlain(h, "2");
    assert "a[x]" == "a" + Brackets(["x"]);
    SplitKeyBrackets("a", ["x"]);
    SplitKeyAppend();
    StepPathKey(map[], "a[x]", "1", ["a", "x"], false, h);
    StepPathKey(map["a" := Obj(map["x" := Str("1")])], "a[]", "2", ["a", ""], false, h);
    UndefinedKeyWalks(h);
  }

  /** `parseStr("a[x]=1&a[]=2")` is `{a: {x: "1", undefined: "2"}}`. */
  lemma ParseUndefinedKey(h: Host)
    requires DecodesPlainly(h, "a[x]") && DecodesPlainly(h, "a[]") && DecodesPlainly(h, "1") && DecodesPlainly(h, "2")
    requires IsNaN(h, "x")
    ensures Parse("a[x]=1&a[]=2", false, h) == Success(map["a" := Obj(map["x" := Str("1"), "undefined" := Str("2")])])
  {
    var f1, f2 := Field("a[x]", Some("1")), Field("a[]", Some("2"));
    assert FieldText(f1) + "&" + FieldText(f2) == "a[x]=1&a[]=2";
    TokensTwo(f1, f2);
    UndefinedKeySteps(h);
    ParseTwo("a[x]=1&a[]=2", ("a[x]", "1"), ("a[]", "2"),
      map["a" := Obj(map["x" := Str("1")])], map["a" := Obj(map["x" := Str("1"), "undefined" := Str("2")])], false, h);
  }

  /** The plain key "a" after `a[]=1`: the array ["1"] is truthy, so "2" is
      pushed onto it. */
  lemma PlainAfterArrayStep(h: Host)
    requires DecodesPlainly(h, "a") && DecodesPlainly(h, "2")
    ensures Step(map["a" := Arr([Str("1")], map[])], ("a", "2"), false, h)
         == Success(map["a" := Arr([Str("1"), Str("2")], map[])])
  {
    DecodePlain(h, "a");
    DecodePlain(h, "2");
    SplitKeyPlain();
    var p1 := map["a" := Arr([Str("1")], map[])];
    StepPlainKey(p1, "a", "2", false, h);
    assert [Str("1")] + [Str("2")] == [Str("1"), Str("2")];
    assert p1["a" := Arr([Str("1"), Str("2")], map[])] == map["a" := Arr([Str("1"), Str("2")], map[])];
  }

  /** `parseStr("a[]=1&a=2")` is `{a: ["1", "2"]}`: the plain key pushes onto
      the array the bracketed key built. */
  lemma ParsePlainAfterArray(h: Host)
    requires DecodesPlainly(h, "a[]") && DecodesPlainly(h, "a") && DecodesPlainly(h, "1") && DecodesPlainly(h, "2")
    ensures Parse("a[]=1&a=2", false, h) == Success(map["a" := Arr([Str("1"), Str("2")], map[])])
  {
    var f1, f2 := Field("a[]", Some("1")), Field("a", Some("2"));
    assert FieldText(f1) + "&" + FieldText(f2) == "a[]=1&a=2";
    TokensTwo(f1, f2);
    ArraySteps(h);
    PlainAfterArrayStep(h);
    ParseTwo("a[]=1&a=2", ("a[]", "1"), ("a", "2"),
      map["a" := Arr([Str("1")], map[])], map["a" := Arr([Str("1"), Str("2")], map[])], false, h);
  }
}
