// The KV3 text parser: a cursor over the document text, advanced by the skip
// routines and by mutually recursive parse methods, and the path query.
module Kv3 {
  import opened Results
  import opened Scanner
  import opened Document

  /** A key as the object parser accepts it: non-empty and free of delimiters. */
  predicate ValidKey(k: string) {
    k != [] && forall i :: 0 <= i < |k| ==> k[i] !in Delimiters
  }

  // ---------------------------------------------------------------------------
  // Where a parsed value sits in the text

  /** Where a value parsed from `i` begins: ParseValue first skips comment
      lines, then white space, once each. */
  function ValueStart(s: string, i: nat): (j: nat)
    requires i <= |s|
    ensures i <= j <= |s|
  {
    WhiteSpaceEnd(s, CommentsEnd(s, i))
  }

  /** Both skips from `i` stay within the loop cap, so neither fails. */
  predicate SkipsFit(s: string, i: nat)
    requires i <= |s|
  {
    CommentJumps(s, i) <= LoopCap + 1 &&
    WhiteSpaceEnd(s, CommentsEnd(s, i)) - CommentsEnd(s, i) <= LoopCap + 1
  }

  /** A byte blob opens at `j`. */
  predicate BlobAt(s: string, j: nat) {
    j + 1 < |s| && s[j] == '#' && s[j + 1] == '['
  }

  /** The character at `j` starts a scalar: it opens no object, array or blob. */
  predicate ScalarAt(s: string, j: nat) {
    j < |s| && s[j] != '{' && s[j] != '[' && !BlobAt(s, j)
  }

  /** An object runs from its `{` at `j` to a `}` just before `end`. */
  predicate ObjectShape(s: string, j: nat, end: nat, v: Value) {
    v.Obj? && j < end <= |s| && s[end - 1] == '}'
  }

  /** An array runs from its `[` at `j` to a `]` just before `end`. */
  predicate ArrayShape(s: string, j: nat, end: nat, v: Value) {
    v.Arr? && j < end <= |s| && s[end - 1] == ']'
  }

  /** A blob `#[...]` at `j` ends just past the first `]` after its `[`, and its
      value is the normalised text between the brackets. */
  predicate BlobShape(s: string, j: nat, end: nat, v: Value)
    requires j + 2 <= |s|
  {
    var e := FirstFrom(s, j + 2, {']'});
    e < |s| && end == e + 1 && v == Str(Normalize(s[j + 2..e]))
  }

  /** A scalar at `j` is the verbatim text up to the next delimiter, where the cursor stops. */
  predicate ScalarShape(s: string, j: nat, end: nat, v: Value)
    requires j <= |s|
  {
    end == TokenEnd(s, j) && v == Str(s[j..end])
  }

  /** What a value whose first character is at `j` and after which the cursor
      stands at `end` is, by that first character. */
  predicate ValueShape(s: string, j: nat, end: nat, v: Value)
    requires j < |s|
  {
    (s[j] == '{' ==> ObjectShape(s, j, end, v)) &&
    (s[j] == '[' ==> ArrayShape(s, j, end, v)) &&
    (BlobAt(s, j) ==> BlobShape(s, j, end, v)) &&
    (ScalarAt(s, j) ==> ScalarShape(s, j, end, v))
  }

  /** A value found in the text: its first character is at `at` and the cursor
      stood at `end` after it. */
  datatype Placed = Placed(at: nat, end: nat, value: Value)

  predicate PlacedIn(s: string, p: Placed) {
    p.at < |s| && p.at <= p.end <= |s| && ValueShape(s, p.at, p.end, p.value)
  }

  /** Values found one after another between `lo` and `hi`: each ends at or
      before the point where the next one starts. */
  predicate PlacedInOrder(s: string, ps: seq<Placed>, lo: nat, hi: nat)
    decreases |ps|
  {
    ps == [] ||
    var p := ps[|ps| - 1];
    PlacedInOrder(s, ps[..|ps| - 1], lo, p.at) && lo <= p.at && p.end <= hi && PlacedIn(s, p)
  }

  /** The values of a run of found values, in order. */
  function Values(ps: seq<Placed>): (vs: seq<Value>)
    ensures |vs| == |ps|
    decreases |ps|
  {
    if ps == [] then [] else Values(ps[..|ps| - 1]) + [ps[|ps| - 1].value]
  }

  lemma {:induction false} ValuesAt(ps: seq<Placed>, k: nat)
    requires k < |ps|
    ensures Values(ps)[k] == ps[k].value
    decreases |ps|
  {
    if k < |ps| - 1 {
      ValuesAt(ps[..|ps| - 1], k);
    }
  }

  lemma ValuesSnoc(ps: seq<Placed>, p: Placed)
    ensures Values(ps + [p]) == Values(ps) + [p.value]
  {
    assert (ps + [p])[..|ps|] == ps;
  }

  /** One `key = value` pair of an object as found in the text: the key
      occupies `keyAt..keyEnd` and the value comes after it. */
  datatype Field = Field(keyAt: nat, keyEnd: nat, item: Placed)

  /** The key text of a pair. */
  function KeyOf(s: string, f: Field): string {
    if f.keyAt <= f.keyEnd <= |s| then s[f.keyAt..f.keyEnd] else []
  }

  /** The key is the non-empty token at `keyAt` (it runs to the next delimiter),
      and the value comes after it. */
  predicate FieldIn(s: string, f: Field) {
    f.keyAt < f.keyEnd <= f.item.at < |s| && f.keyEnd == TokenEnd(s, f.keyAt) && PlacedIn(s, f.item)
  }

  /** A pair's key is a valid key, and a delimiter follows it. */
  lemma FieldKey(s: string, f: Field)
    requires FieldIn(s, f)
    ensures ValidKey(KeyOf(s, f)) && s[f.keyEnd] in Delimiters
  {
    TokenEndStops(s, f.keyAt);
    var key := KeyOf(s, f);
    forall i | 0 <= i < |key|
      ensures key[i] !in Delimiters
    {
      assert key[i] == s[f.keyAt + i];
    }
  }

  /** Pairs found one after another between `lo` and `hi`: each value ends at
      or before the point where the next key starts. */
  predicate FieldsInOrder(s: string, fs: seq<Field>, lo: nat, hi: nat)
    decreases |fs|
  {
    fs == [] ||
    var f := fs[|fs| - 1];
    FieldsInOrder(s, fs[..|fs| - 1], lo, f.keyAt) && lo <= f.keyAt && f.item.end <= hi && FieldIn(s, f)
  }

  /** The object a run of pairs builds, writing them in order: the last write of a key wins. */
  function Fields(s: string, fs: seq<Field>): (m: map<string, Value>)
    decreases |fs|
  {
    if fs == [] then map[]
    else
      var last := fs[|fs| - 1];
      Fields(s, fs[..|fs| - 1])[KeyOf(s, last) := last.item.value]
  }

  lemma PlacedAppend(s: string, ps: seq<Placed>, lo: nat, hi: nat, p: Placed, hi': nat)
    ensures PlacedInOrder(s, ps, lo, hi) && lo <= hi <= p.at && p.end <= hi' && PlacedIn(s, p) ==>
            PlacedInOrder(s, ps + [p], lo, hi')
  {
    assert (ps + [p])[..|ps|] == ps;
  }

  lemma FieldAppend(s: string, fs: seq<Field>, lo: nat, hi: nat, f: Field, hi': nat)
    ensures FieldsInOrder(s, fs, lo, hi) && lo <= hi <= f.keyAt && f.item.end <= hi' && FieldIn(s, f) ==>
            FieldsInOrder(s, fs + [f], lo, hi')
  {
    assert (fs + [f])[..|fs|] == fs;
  }

  lemma PlacedWiden(s: string, ps: seq<Placed>, lo: nat, hi: nat, hi': nat)
    ensures PlacedInOrder(s, ps, lo, hi) && hi <= hi' ==> PlacedInOrder(s, ps, lo, hi')
  {
  }

  lemma FieldsWiden(s: string, fs: seq<Field>, lo: nat, hi: nat, hi': nat)
    ensures FieldsInOrder(s, fs, lo, hi) && hi <= hi' ==> FieldsInOrder(s, fs, lo, hi')
  {
  }

  /** Values found in order lie between the bounds, each is a value of the
      text, and each ends before the next begins. */
  lemma {:induction false} PlacedInOrderAt(s: string, ps: seq<Placed>, lo: nat, hi: nat, k: nat)
    requires PlacedInOrder(s, ps, lo, hi)
    requires k < |ps|
    ensures lo <= ps[k].at && ps[k].end <= hi && PlacedIn(s, ps[k])
    ensures k + 1 < |ps| ==> ps[k].end <= ps[k + 1].at
    decreases |ps|
  {
    var n := |ps| - 1;
    if k < n {
      PlacedInOrderAt(s, ps[..n], lo, ps[n].at, k);
      if k + 1 < n {
        assert ps[..n][k + 1] == ps[k + 1];
      }
    }
  }

  /** Pairs found in order lie between the bounds, each is a pair of the
      text, and each value ends before the next key begins. */
  lemma {:induction false} FieldsInOrderAt(s: string, fs: seq<Field>, lo: nat, hi: nat, k: nat)
    requires FieldsInOrder(s, fs, lo, hi)
    requires k < |fs|
    ensures lo <= fs[k].keyAt && fs[k].item.end <= hi && FieldIn(s, fs[k])
    ensures k + 1 < |fs| ==> fs[k].item.end <= fs[k + 1].keyAt
    decreases |fs|
  {
    var n := |fs| - 1;
    if k < n {
      FieldsInOrderAt(s, fs[..n], lo, fs[n].keyAt, k);
      if k + 1 < n {
        assert fs[..n][k + 1] == fs[k + 1];
      }
    }
  }

  lemma FieldsSnoc(s: string, fs: seq<Field>, f: Field)
    ensures Fields(s, fs + [f]) == Fields(s, fs)[KeyOf(s, f) := f.item.value]
  {
    assert (fs + [f])[..|fs|] == fs;
  }

  /** The object has exactly the keys that were written. */
  lemma {:induction false} FieldsKeys(s: string, fs: seq<Field>, k: string)
    ensures k in Fields(s, fs) <==> exists i :: 0 <= i < |fs| && KeyOf(s, fs[i]) == k
    decreases |fs|
  {
    if fs != [] {
      var front := fs[..|fs| - 1];
      FieldsKeys(s, front, k);
      assert forall i :: 0 <= i < |front| ==> front[i] == fs[i];
    }
  }

  /** A key keeps the value of its last write. */
  lemma {:induction false} LastWriteWins(s: string, fs: seq<Field>, i: nat)
    requires i < |fs|
    requires forall j :: i < j < |fs| ==> KeyOf(s, fs[j]) != KeyOf(s, fs[i])
    ensures KeyOf(s, fs[i]) in Fields(s, fs)
    ensures Fields(s, fs)[KeyOf(s, fs[i])] == fs[i].item.value
    decreases |fs|
  {
    if i < |fs| - 1 {
      var front := fs[..|fs| - 1];
      assert forall j :: i < j < |front| ==> front[j] == fs[j];
      LastWriteWins(s, front, i);
    }
  }

  /** The key read from `i` is empty: after the skips comes a delimiter other
      than the closing brace. */
  predicate EmptyKeyAt(s: string, i: nat)
    requires i <= |s|
  {
    var p := ValueStart(s, i);
    p < |s| && s[p] != '}' && s[p] in Delimiters
  }

  // ---------------------------------------------------------------------------
  // What the parser reads: the text's own reading, one function per parse
  // method, each giving the value read and where the cursor then stands

  /** What an object or array loop read: its items in text order, the map
      or list it built from them, and where the cursor stands after the
      closing bracket. */
  datatype Run<T, C> = Run(items: seq<T>, built: C, end: nat)

  /** One round of an object or array loop: the closing bracket is met, or
      one more item is read; either way the cursor then stands at `end`. */
  datatype Round<T> = Close(end: nat) | Item(item: T, end: nat)

  /** Where the cursor stands after skipping white space from `w` and then one
      `c` if there is one; None when the white space overruns the loop cap. */
  function SkipThen(s: string, w: nat, c: char): (r: Option<nat>)
    requires w <= |s|
    ensures r.Some? <==> WhiteSpaceEnd(s, w) - w <= LoopCap + 1
    ensures r.Some? ==> w <= r.value <= |s|
    ensures r.Some? && r.value < |s| && s[r.value] == c ==> r.value > w && s[r.value - 1] == c
  {
    var a := WhiteSpaceEnd(s, w);
    if a - w > LoopCap + 1 then None
    else if a < |s| && s[a] == c then Some(a + 1)
    else Some(a)
  }

  /** The value read from `i`: comment lines and white space are skipped,
      once each, and the value starts where they stop. Err is what makes the
      parser raise. */
  function ValueAt(s: string, i: nat): (r: Result<Placed>)
    requires i <= |s|
    ensures r.Ok? ==> r.value.at == ValueStart(s, i) && r.value.at <= r.value.end <= |s|
    decreases |s| - i, 1, 0
  {
    if !SkipsFit(s, i) then Err else ValueHere(s, ValueStart(s, i))
  }

  /** The value whose first character is at `j`, which decides between
      object, array, blob and scalar; the end of the text is an error. */
  function ValueHere(s: string, j: nat): (r: Result<Placed>)
    requires j <= |s|
    ensures r.Ok? ==> r.value.at == j <= r.value.end <= |s|
    decreases |s| - j, 0, 0
  {
    if j == |s| then Err
    else if s[j] == '{' then
      match ObjectFrom(s, j + 1)
      case Err => Err
      case Ok(run) => Ok(Placed(j, run.end, Obj(run.built)))
    else if s[j] == '[' then
      match ArrayFrom(s, j + 1)
      case Err => Err
      case Ok(run) => Ok(Placed(j, run.end, Arr(run.built)))
    else if BlobAt(s, j) then
      var e := FirstFrom(s, j + 2, {']'});
      if e == |s| then Err else Ok(Placed(j, e + 1, Str(Normalize(s[j + 2..e]))))
    else
      Ok(Placed(j, TokenEnd(s, j), Str(s[j..TokenEnd(s, j)])))
  }

  /** An object loop started just past a `{` at `j - 1`. */
  function ObjectFrom(s: string, j: nat): (r: Result<Run<Field, map<string, Value>>>)
    requires j <= |s|
    ensures r.Ok? ==> j < r.value.end <= |s|
    decreases |s| - j, 4, 0
  {
    ObjectLoop(s, j, [], map[], 0)
  }

  /** The rest of an object loop from `j`, with the pairs `fs` read and the
      map `m` built so far in `it` rounds: rounds go on while text remains and
      the cap is not passed, and each pair read is stored under its key. */
  function ObjectLoop(s: string, j: nat, fs: seq<Field>, m: map<string, Value>, it: nat)
    : (r: Result<Run<Field, map<string, Value>>>)
    requires j <= |s|
    ensures r.Ok? ==> j < r.value.end <= |s|
    decreases |s| - j, 3, LoopCap + 1 - it
  {
    if j == |s| || it > LoopCap then Err
    else
      match MemberAt(s, j)
      case Err => Err
      case Ok(Close(e)) => Ok(Run(fs, m, e))
      case Ok(Item(f, e)) => ObjectLoop(s, e, fs + [f], m[KeyOf(s, f) := f.item.value], it + 1)
  }

  /** One round of the object loop from `j`: after the skips, a `}` closes the
      object; anything else is a pair, followed by white space and one
      optional `,`. */
  function MemberAt(s: string, j: nat): (r: Result<Round<Field>>)
    requires j <= |s|
    ensures r.Ok? ==> j < r.value.end <= |s|
    decreases |s| - j, 2, 0
  {
    var k := ValueStart(s, j);
    if !SkipsFit(s, j) || k == |s| then Err
    else if s[k] == '}' then Ok(Close(k + 1))
    else
      match KeyValueAt(s, k)
      case Err => Err
      case Ok(f) =>
        match SkipThen(s, f.item.end, ',')
        case None => Err
        case Some(e) => Ok(Item(f, e))
  }

  /** A pair from `k`: the key is the non-empty token there; white space and
      one optional `=` follow, then the value. */
  function KeyValueAt(s: string, k: nat): (r: Result<Field>)
    requires k <= |s|
    ensures r.Ok? ==> r.value.keyAt == k < r.value.keyEnd <= r.value.item.at <= r.value.item.end <= |s|
    decreases |s| - k, 0, 0
  {
    var ke := TokenEnd(s, k);
    if ke == k then Err
    else
      match SkipThen(s, ke, '=')
      case None => Err
      case Some(from) =>
        match ValueAt(s, from)
        case Err => Err
        case Ok(p) => Ok(Field(k, ke, p))
  }

  /** An array loop started just past a `[` at `j - 1`. */
  function ArrayFrom(s: string, j: nat): (r: Result<Run<Placed, seq<Value>>>)
    requires j <= |s|
    ensures r.Ok? ==> j < r.value.end <= |s|
    decreases |s| - j, 4, 0
  {
    ArrayLoop(s, j, [], [], 0)
  }

  /** The rest of an array loop from `j`, with the elements `ps` read and the
      list `vs` built so far in `it` rounds; each element read is appended. */
  function ArrayLoop(s: string, j: nat, ps: seq<Placed>, vs: seq<Value>, it: nat)
    : (r: Result<Run<Placed, seq<Value>>>)
    requires j <= |s|
    ensures r.Ok? ==> j < r.value.end <= |s|
    decreases |s| - j, 3, LoopCap + 1 - it
  {
    if j == |s| || it > LoopCap then Err
    else
      match ElementAt(s, j)
      case Err => Err
      case Ok(Close(e)) => Ok(Run(ps, vs, e))
      case Ok(Item(p, e)) => ArrayLoop(s, e, ps + [p], vs + [p.value], it + 1)
  }

  /** One round of the array loop from `j`: after the skips, a `]` closes the
      array; anything else is a value, followed by white space and one
      optional `,`. */
  function ElementAt(s: string, j: nat): (r: Result<Round<Placed>>)
    requires j <= |s|
    ensures r.Ok? ==> j <= r.value.end <= |s|
    ensures r.Ok? && r.value.Close? ==> j < r.value.end
    decreases |s| - j, 2, 0
  {
    var k := ValueStart(s, j);
    if !SkipsFit(s, j) || k == |s| then Err
    else if s[k] == ']' then Ok(Close(k + 1))
    else
      match ValueAt(s, k)
      case Err => Err
      case Ok(p) =>
        match SkipThen(s, p.end, ',')
        case None => Err
        case Some(e) => Ok(Item(p, e))
  }

  /** A whole document: the header lines are skipped, then one value is read,
      which is an object whose `{` starts a line. */
  function DocumentAt(s: string): (r: Result<Placed>)
  {
    if HeaderJumps(s, 0) > LoopCap + 1 then Err else ValueAt(s, HeaderEnd(s, 0))
  }

  // ---------------------------------------------------------------------------
  // What the reading promises about the text

  /** An object loop that succeeds stops just past a `}`. */
  lemma {:induction false} ObjectLoopCloses(s: string, j: nat, fs: seq<Field>, m: map<string, Value>, it: nat)
    requires j <= |s| && ObjectLoop(s, j, fs, m, it).Ok?
    ensures s[ObjectLoop(s, j, fs, m, it).value.end - 1] == '}'
    decreases |s| - j, LoopCap + 1 - it
  {
    var round := MemberAt(s, j);
    if round.value.Item? {
      var f := round.value.item;
      ObjectLoopCloses(s, round.value.end, fs + [f], m[KeyOf(s, f) := f.item.value], it + 1);
    }
  }

  /** An array loop that succeeds stops just past a `]`. */
  lemma {:induction false} ArrayLoopCloses(s: string, j: nat, ps: seq<Placed>, vs: seq<Value>, it: nat)
    requires j <= |s| && ArrayLoop(s, j, ps, vs, it).Ok?
    ensures s[ArrayLoop(s, j, ps, vs, it).value.end - 1] == ']'
    decreases |s| - j, LoopCap + 1 - it
  {
    var round := ElementAt(s, j);
    if round.value.Item? {
      var p := round.value.item;
      ArrayLoopCloses(s, round.value.end, ps + [p], vs + [p.value], it + 1);
    }
  }

  /** A value read at `j` has the shape its first character announces. */
  lemma ValueHerePlaced(s: string, j: nat)
    requires j <= |s| && ValueHere(s, j).Ok?
    ensures PlacedIn(s, ValueHere(s, j).value)
  {
    if s[j] == '{' {
      ObjectLoopCloses(s, j + 1, [], map[], 0);
    } else if s[j] == '[' {
      ArrayLoopCloses(s, j + 1, [], [], 0);
    }
  }

  /** A value read from `i` starts where the skips stop and has the shape its
      first character announces; at the end of the text there is none. */
  lemma ValueAtPlaced(s: string, i: nat)
    requires i <= |s|
    ensures ValueAt(s, i).Ok? ==> ValueAt(s, i).value.at == ValueStart(s, i) && PlacedIn(s, ValueAt(s, i).value)
    ensures ValueStart(s, i) == |s| ==> ValueAt(s, i).Err?
    ensures SkipsFit(s, i) && ScalarAt(s, ValueStart(s, i)) ==> ValueAt(s, i).Ok?
  {
    if ValueAt(s, i).Ok? {
      ValueHerePlaced(s, ValueStart(s, i));
    }
  }

  /** A pair read from `k` is a pair of the text: its key is the token at `k`
      and its value is a value of the text. A delimiter at `k` is an empty key,
      which fails. */
  lemma KeyValueAtField(s: string, k: nat)
    requires k <= |s|
    ensures KeyValueAt(s, k).Ok? ==> FieldIn(s, KeyValueAt(s, k).value)
    ensures k < |s| && s[k] in Delimiters ==> KeyValueAt(s, k).Err?
  {
    var ke := TokenEnd(s, k);
    if KeyValueAt(s, k).Ok? {
      var from := SkipThen(s, ke, '=').value;
      ValueAtPlaced(s, from);
    }
  }

  /** The pairs an object loop reads continue those read before it in text
      order, up to its closing `}`. */
  lemma {:induction false} ObjectLoopInOrder(s: string, j: nat, fs: seq<Field>, m: map<string, Value>, it: nat, lo: nat)
    requires j <= |s| && ObjectLoop(s, j, fs, m, it).Ok?
    requires lo <= j && FieldsInOrder(s, fs, lo, j)
    ensures FieldsInOrder(s, ObjectLoop(s, j, fs, m, it).value.items, lo, ObjectLoop(s, j, fs, m, it).value.end - 1)
    decreases |s| - j, LoopCap + 1 - it
  {
    var round := MemberAt(s, j);
    if round.value.Item? {
      var f := round.value.item;
      var e := round.value.end;
      KeyValueAtField(s, ValueStart(s, j));
      FieldAppend(s, fs, lo, j, f, e);
      ObjectLoopInOrder(s, e, fs + [f], m[KeyOf(s, f) := f.item.value], it + 1, lo);
    } else {
      FieldsWiden(s, fs, lo, j, round.value.end - 1);
    }
  }

  /** The map an object loop builds is the one its pairs write, in order. */
  lemma {:induction false} ObjectLoopBuilt(s: string, j: nat, fs: seq<Field>, m: map<string, Value>, it: nat)
    requires j <= |s| && ObjectLoop(s, j, fs, m, it).Ok? && m == Fields(s, fs)
    ensures ObjectLoop(s, j, fs, m, it).value.built == Fields(s, ObjectLoop(s, j, fs, m, it).value.items)
    decreases |s| - j, LoopCap + 1 - it
  {
    var round := MemberAt(s, j);
    if round.value.Item? {
      var f := round.value.item;
      FieldsSnoc(s, fs, f);
      ObjectLoopBuilt(s, round.value.end, fs + [f], m[KeyOf(s, f) := f.item.value], it + 1);
    }
  }

  /** An object's pairs lie in text order between its braces, and its map
      is the one they write: the keys are exactly the keys read, and each
      holds the value of its last pair. */
  lemma ObjectFields(s: string, j: nat)
    requires j <= |s| && ObjectFrom(s, j).Ok?
    ensures FieldsInOrder(s, ObjectFrom(s, j).value.items, j, ObjectFrom(s, j).value.end - 1)
    ensures ObjectFrom(s, j).value.built == Fields(s, ObjectFrom(s, j).value.items)
  {
    ObjectLoopInOrder(s, j, [], map[], 0, j);
    ObjectLoopBuilt(s, j, [], map[], 0);
  }

  /** The elements an array loop reads continue those read before it in
      text order, up to its closing `]`. */
  lemma {:induction false} ArrayLoopInOrder(s: string, j: nat, ps: seq<Placed>, vs: seq<Value>, it: nat, lo: nat)
    requires j <= |s| && ArrayLoop(s, j, ps, vs, it).Ok?
    requires lo <= j && PlacedInOrder(s, ps, lo, j)
    ensures PlacedInOrder(s, ArrayLoop(s, j, ps, vs, it).value.items, lo, ArrayLoop(s, j, ps, vs, it).value.end - 1)
    decreases |s| - j, LoopCap + 1 - it
  {
    var round := ElementAt(s, j);
    if round.value.Item? {
      var p := round.value.item;
      var e := round.value.end;
      ValueAtPlaced(s, ValueStart(s, j));
      PlacedAppend(s, ps, lo, j, p, e);
      ArrayLoopInOrder(s, e, ps + [p], vs + [p.value], it + 1, lo);
    } else {
      PlacedWiden(s, ps, lo, j, round.value.end - 1);
    }
  }

  /** The list an array loop builds holds its elements' values in order. */
  lemma {:induction false} ArrayLoopBuilt(s: string, j: nat, ps: seq<Placed>, vs: seq<Value>, it: nat)
    requires j <= |s| && ArrayLoop(s, j, ps, vs, it).Ok? && vs == Values(ps)
    ensures ArrayLoop(s, j, ps, vs, it).value.built == Values(ArrayLoop(s, j, ps, vs, it).value.items)
    decreases |s| - j, LoopCap + 1 - it
  {
    var round := ElementAt(s, j);
    if round.value.Item? {
      var p := round.value.item;
      ValuesSnoc(ps, p);
      ArrayLoopBuilt(s, round.value.end, ps + [p], vs + [p.value], it + 1);
    }
  }

  /** An array's elements lie in text order between its brackets, and its
      list holds their values in that order. */
  lemma ArrayElements(s: string, j: nat)
    requires j <= |s| && ArrayFrom(s, j).Ok?
    ensures PlacedInOrder(s, ArrayFrom(s, j).value.items, j, ArrayFrom(s, j).value.end - 1)
    ensures ArrayFrom(s, j).value.built == Values(ArrayFrom(s, j).value.items)
  {
    ArrayLoopInOrder(s, j, [], [], 0, j);
    ArrayLoopBuilt(s, j, [], [], 0);
  }

  /** An object whose first key is empty fails. */
  lemma ObjectEmptyKey(s: string, j: nat)
    requires j <= |s| && EmptyKeyAt(s, j)
    ensures ObjectFrom(s, j).Err?
  {
    KeyValueAtField(s, ValueStart(s, j));
    assert MemberAt(s, j).Err?;
  }

  /** A document read is the value at the end of the header: an object whose
      `{` starts a line. A document that is all header fails. */
  lemma DocumentObject(s: string)
    ensures DocumentAt(s).Ok? ==> DocumentAt(s).value.at == HeaderEnd(s, 0) && PlacedIn(s, DocumentAt(s).value)
    ensures DocumentAt(s).Ok? ==> DocumentAt(s).value.value.Obj?
    ensures DocumentAt(s).Ok? ==> HeaderEnd(s, 0) == 0 || s[HeaderEnd(s, 0) - 1] == '\n'
    ensures HeaderEnd(s, 0) == |s| ==> DocumentAt(s).Err?
  {
    var h := HeaderEnd(s, 0);
    HeaderEndStartsLine(s, 0);
    CommentsEndStops(s, h);
    WhiteSpaceEndStops(s, h);
    ValueAtPlaced(s, h);
  }

  class Parser {
    var content: string
    var index: nat
    var parsedData: Option<Value>

    /** The cursor never passes the end of the text. */
    ghost predicate Valid()
      reads this
    {
      index <= |content|
    }

    constructor ()
      ensures Valid()
      ensures content == [] && index == 0 && parsedData == None
    {
      content := [];
      index := 0;
      parsedData := None;
    }

    /** Parse a whole document: skip the header lines, then parse one value,
        which becomes `parsedData`. Text after it is ignored. */
    method Parse(text: string) returns (r: Result<()>)
      modifies this
      ensures Valid() && content == text
      ensures r.Ok? <==> DocumentAt(text).Ok?
      ensures r.Ok? ==> index == DocumentAt(text).value.end
      ensures r.Ok? ==> parsedData == Some(DocumentAt(text).value.value)
      ensures r.Err? ==> parsedData == old(parsedData)
    {
      content := text;
      index := 0;
      var ok := SkipCommentsAndMetadata();
      if !ok {
        return Err;
      }
      var v := ParseValue();
      if v.Err? {
        return Err;
      }
      parsedData := Some(v.value);
      r := Ok(());
    }

    /** Skip whole lines until one starts with `{`. */
    method SkipCommentsAndMetadata() returns (ok: bool)
      requires Valid()
      modifies this`index
      ensures content == old(content) && old(index) <= index
      ensures Valid()
      ensures ok <==> HeaderJumps(content, old(index)) <= LoopCap + 1
      ensures ok ==> index == HeaderEnd(content, old(index))
    {
      ghost var start := index;
      var iteration := 0;
      while index < |content| && content[index] != '{'
        invariant index <= |content|
        invariant HeaderEnd(content, index) == HeaderEnd(content, start)
        invariant HeaderJumps(content, start) == iteration + HeaderJumps(content, index)
        invariant iteration <= LoopCap + 1
        decreases |content| - index
      {
        if iteration > LoopCap {
          return false;
        }
        iteration := iteration + 1;
        ghost var here := index;
        index := IndexOfAny(content, {'\n'}, index) + 1;
        if index == 0 {
          index := |content|;
          assert index == NextLine(content, here);
          break;
        }
        assert index == NextLine(content, here);
      }
      ok := true;
    }

    /** Skip white space. */
    method SkipWhitespace() returns (ok: bool)
      requires Valid()
      modifies this`index
      ensures content == old(content) && old(index) <= index
      ensures Valid()
      ensures ok <==> WhiteSpaceEnd(content, old(index)) - old(index) <= LoopCap + 1
      ensures ok ==> index == WhiteSpaceEnd(content, old(index))
    {
      ghost var start := index;
      var iteration := 0;
      while index < |content| && IsWhiteSpace(content[index])
        invariant start <= index <= |content|
        invariant WhiteSpaceEnd(content, index) == WhiteSpaceEnd(content, start)
        invariant iteration == index - start <= LoopCap + 1
        decreases |content| - index
      {
        if iteration > LoopCap {
          return false;
        }
        iteration := iteration + 1;
        index := index + 1;
      }
      ok := true;
    }

    /** Skip lines that start with `/`. */
    method SkipComments() returns (ok: bool)
      requires Valid()
      modifies this`index
      ensures content == old(content) && old(index) <= index
      ensures Valid()
      ensures ok <==> CommentJumps(content, old(index)) <= LoopCap + 1
      ensures ok ==> index == CommentsEnd(content, old(index))
    {
      ghost var start := index;
      var iteration := 0;
      while index < |content| && content[index] == '/'
        invariant index <= |content|
        invariant CommentsEnd(content, index) == CommentsEnd(content, start)
        invariant CommentJumps(content, start) == iteration + CommentJumps(content, index)
        invariant iteration <= LoopCap + 1
        decreases |content| - index
      {
        if iteration > LoopCap {
          return false;
        }
        iteration := iteration + 1;
        ghost var here := index;
        index := IndexOfAny(content, {'\n'}, index) + 1;
        if index == 0 {
          index := |content|;
          assert index == NextLine(content, here);
          break;
        }
        assert index == NextLine(content, here);
      }
      ok := true;
    }

    /** The end of the key or scalar under the cursor: the first delimiter at or
        after the cursor, or the end of the text. */
    method GetKeyOrValueEnd() returns (end: nat)
      requires Valid()
      ensures end == TokenEnd(content, index)
      ensures forall k :: index <= k < end ==> content[k] !in Delimiters
      ensures end < |content| ==> content[end] in Delimiters
    {
      var found := IndexOfAny(content, Delimiters, index);
      end := if found == -1 then |content| else found;
      TokenEndStops(content, index);
    }

    /** Parse the value under the cursor, after skipping comment lines and white space. */
    method ParseValue() returns (r: Result<Value>)
      requires Valid()
      modifies this`index
      ensures content == old(content) && old(index) <= index
      ensures Valid()
      ensures r.Ok? <==> ValueAt(content, old(index)).Ok?
      ensures r.Ok? ==> index == ValueAt(content, old(index)).value.end
      ensures r.Ok? ==> r.value == ValueAt(content, old(index)).value.value
      decreases |content| - index, 3
    {
      ghost var start := index;
      r := Err;
      var ok := SkipComments();
      if ok {
        ok := SkipWhitespace();
      }
      if !ok || index >= |content| {
        // Unexpected end of content, or a skip loop ran past its cap.
      } else if content[index] == '{' {
        r := ParseObject();
      } else if content[index] == '[' {
        r := ParseArray();
      } else if content[index] == '#' && index + 1 < |content| && content[index + 1] == '[' {
        index := index + 1;
        r := ParseByteArray();
      } else {
        var valueStart := index;
        var valueEnd := GetKeyOrValueEnd();
        index := valueEnd;
        r := Ok(Str(content[valueStart..valueEnd]));
      }
    }

    /** Parse a byte blob; the cursor is on the `[` after `#`. The text up to the
        first `]` is kept with its runs of spaces collapsed. */
    method ParseByteArray() returns (r: Result<Value>)
      requires Valid() && index < |content| && content[index] == '['
      modifies this`index
      ensures content == old(content) && old(index) <= index
      ensures Valid()
      ensures r.Ok? <==> FirstFrom(content, old(index) + 1, {']'}) < |content|
      ensures r.Ok? ==>
                var e := FirstFrom(content, old(index) + 1, {']'});
                index == e + 1 && r.value == Str(Normalize(content[old(index) + 1..e]))
    {
      // The cursor is on '[', so this skips nothing and cannot fail.
      var ok := SkipWhitespace();
      assert ok;
      index := index + 1;
      var valueStart := index;
      var valueEnd := IndexOfAny(content, {']'}, index);
      if valueEnd == -1 {
        return Err;
      }
      var rawByteData := content[valueStart..valueEnd];
      index := valueEnd + 1;
      r := Ok(Str(Normalize(rawByteData)));
    }

    /** Parse an object; the cursor is on its `{`. The object is the map its
        pairs build in text order. */
    method ParseObject() returns (r: Result<Value>)
      requires Valid() && index < |content| && content[index] == '{'
      modifies this`index
      ensures content == old(content) && old(index) <= index
      ensures Valid()
      ensures r.Ok? <==> ObjectFrom(content, old(index) + 1).Ok?
      ensures r.Ok? ==> index == ObjectFrom(content, old(index) + 1).value.end
      ensures r.Ok? ==> r.value == Obj(ObjectFrom(content, old(index) + 1).value.built)
      decreases |content| - index, 2
    {
      ghost var open := index;
      var obj: map<string, Value> := map[];
      ghost var fields: seq<Field> := [];
      // The cursor is on '{', so this skips nothing and cannot fail.
      var ok := SkipWhitespace();
      assert ok;
      index := index + 1;
      var iteration := 0;
      ghost var whole := ObjectFrom(content, index);
      r := Err;
      while index < |content|
        invariant content == old(content) && open < index <= |content|
        invariant r == Err
        invariant ObjectLoop(content, index, fields, obj, iteration) == whole
        invariant iteration <= LoopCap + 1
        decreases LoopCap + 1 - iteration
      {
        if iteration > LoopCap {
          break;
        }
        ghost var round := MemberAt(content, index);
        ghost var before := index;
        iteration := iteration + 1;
        var member := ParseMember();
        if member.Err? {
          break;
        }
        if member.value.None? {
          r := Ok(Obj(obj));
          break;
        }
        ghost var f := round.value.item;
        var (key, value) := member.value.value;
        obj := obj[key := value];
        fields := fields + [f];
      }
    }

    /** One round of the object loop: skip comment lines and white space, then
        either close the object at `}` (None) or read one `key = value` pair and
        the white space and single `,` after it. Running out of text fails. */
    method ParseMember() returns (r: Result<Option<(string, Value)>>)
      requires Valid()
      modifies this`index
      ensures content == old(content) && old(index) <= index
      ensures Valid()
      ensures r.Ok? <==> MemberAt(content, old(index)).Ok?
      ensures r.Ok? ==> index == MemberAt(content, old(index)).value.end
      ensures r.Ok? && MemberAt(content, old(index)).value.Close? ==> r.value == None
      ensures r.Ok? && MemberAt(content, old(index)).value.Item? ==>
                r.value == Some((KeyOf(content, MemberAt(content, old(index)).value.item),
                                 MemberAt(content, old(index)).value.item.item.value))
      decreases |content| - index, 1
    {
      var ok := SkipComments();
      if !ok {
        return Err;
      }
      ok := SkipWhitespace();
      if !ok {
        return Err;
      }
      if index >= |content| {
        // content[index] raises at the end of the text
        return Err;
      }
      if content[index] == '}' {
        index := index + 1;
        return Ok(None);
      }
      var pair := ParseKeyValue();
      if pair.Err? {
        return Err;
      }
      ok := SkipWhitespace();
      if !ok {
        return Err;
      }
      if index < |content| && content[index] == ',' {
        index := index + 1;
      }
      r := Ok(Some(pair.value));
    }

    /** One `key = value` pair of an object: the key runs from the cursor to the
        next delimiter and must not be empty; a single `=` after it (and any
        white space before that) is optional. */
    method ParseKeyValue() returns (r: Result<(string, Value)>)
      requires Valid()
      modifies this`index
      ensures content == old(content) && old(index) <= index
      ensures Valid()
      ensures r.Ok? <==> KeyValueAt(content, old(index)).Ok?
      ensures r.Ok? ==> index == KeyValueAt(content, old(index)).value.item.end
      ensures r.Ok? ==> r.value == (KeyOf(content, KeyValueAt(content, old(index)).value),
                                    KeyValueAt(content, old(index)).value.item.value)
      decreases |content| - index, 0
    {
      var keyStart := index;
      var keyEnd := GetKeyOrValueEnd();
      if keyEnd == index {
        return Err;
      }
      var key := content[keyStart..keyEnd];
      index := keyEnd;
      var ok := SkipWhitespace();
      if !ok {
        return Err;
      }
      if index < |content| && content[index] == '=' {
        index := index + 1;
      }
      ghost var from := index;
      assert SkipThen(content, keyEnd, '=') == Some(from);
      var value := ParseValue();
      if value.Err? {
        return Err;
      }
      r := Ok((key, value.value));
      assert KeyValueAt(content, keyStart) == Ok(Field(keyStart, keyEnd, ValueAt(content, from).value));
    }

    /** Parse an array; the cursor is on its `[`. The array is the list of its
        elements in text order. */
    method ParseArray() returns (r: Result<Value>)
      requires Valid() && index < |content| && content[index] == '['
      modifies this`index
      ensures content == old(content) && old(index) <= index
      ensures Valid()
      ensures r.Ok? <==> ArrayFrom(content, old(index) + 1).Ok?
      ensures r.Ok? ==> index == ArrayFrom(content, old(index) + 1).value.end
      ensures r.Ok? ==> r.value == Arr(ArrayFrom(content, old(index) + 1).value.built)
      decreases |content| - index, 2
    {
      ghost var open := index;
      var arr: seq<Value> := [];
      ghost var items: seq<Placed> := [];
      // The cursor is on '[', so this skips nothing and cannot fail.
      var ok := SkipWhitespace();
      assert ok;
      index := index + 1;
      var iteration := 0;
      ghost var whole := ArrayFrom(content, index);
      r := Err;
      while index < |content|
        invariant content == old(content) && open < index <= |content|
        invariant r == Err
        invariant ArrayLoop(content, index, items, arr, iteration) == whole
        invariant iteration <= LoopCap + 1
        decreases LoopCap + 1 - iteration
      {
        if iteration > LoopCap {
          break;
        }
        ghost var round := ElementAt(content, index);
        ghost var before := index;
        iteration := iteration + 1;
        var element := ParseElement();
        if element.Err? {
          break;
        }
        if element.value.None? {
          r := Ok(Arr(arr));
          break;
        }
        ghost var p := round.value.item;
        arr := arr + [element.value.value];
        items := items + [p];
      }
    }

    /** One round of the array loop: skip comment lines and white space, then
        either close the array at `]` (None) or read one value and the white
        space and single `,` after it. Running out of text fails. */
    method ParseElement() returns (r: Result<Option<Value>>)
      requires Valid()
      modifies this`index
      ensures content == old(content) && old(index) <= index
      ensures Valid()
      ensures r.Ok? <==> ElementAt(content, old(index)).Ok?
      ensures r.Ok? ==> index == ElementAt(content, old(index)).value.end
      ensures r.Ok? && ElementAt(content, old(index)).value.Close? ==> r.value == None
      ensures r.Ok? && ElementAt(content, old(index)).value.Item? ==>
                r.value == Some(ElementAt(content, old(index)).value.item.value)
      decreases |content| - index, 4
    {
      var ok := SkipComments();
      if !ok {
        return Err;
      }
      ok := SkipWhitespace();
      if !ok {
        return Err;
      }
      if index >= |content| {
        // content[index] raises at the end of the text
        return Err;
      }
      if content[index] == ']' {
        index := index + 1;
        return Ok(None);
      }
      var value := ParseValue();
      if value.Err? {
        return Err;
      }
      ok := SkipWhitespace();
      if !ok {
        return Err;
      }
      if index < |content| && content[index] == ',' {
        index := index + 1;
      }
      r := Ok(Some(value.value));
    }

    /** Read the scalar at a dotted path, or "" when the path does not resolve
        to one. Never fails: every exception inside becomes "". */
    method GetValue(path: string) returns (r: string)
      ensures r == Query(parsedData, path)
    {
      var currentValue := parsedData;
      var segments := SplitDots(path);
      var rest := segments;
      while rest != []
        invariant Resolve(parsedData, segments) == Resolve(currentValue, rest)
      {
        ResolveHead(currentValue, rest);
        // The key is the text before the first '['; the index text runs to the
        // next ']', and int.Parse rejects it or a missing ']' raises.
        var parsed := ParseSegment(rest[0]);
        if parsed.None? {
          return "";
        }
        var next := Descend(currentValue, parsed.value);
        if next.Missing? {
          return "";
        }
        currentValue := next.node;
        rest := rest[1..];
      }
      r := if currentValue.Some? && currentValue.value.Str? then currentValue.value.text else "";
    }
  }

  /** The body of GetValue's loop for a segment that parsed: the key is looked
      up when the current node is an object, then the index when there is one
      and the node is an array. */
  method Descend(currentValue: Option<Value>, sg: Segment) returns (next: Lookup)
    ensures next == Step(currentValue, sg)
  {
    var key := sg.key;
    var arrayIndex := sg.index;
    var node := currentValue;
    if node.Some? && node.value.Obj? {
      var obj := node.value.fields;
      if key in obj {
        node := Some(obj[key]);
      } else {
        return Missing;
      }
    }
    ghost var mid := node;
    assert KeyStep(currentValue, key) == At(mid);
    if arrayIndex.Some? && node.Some? && node.value.Arr? {
      var arr := node.value.items;
      if arrayIndex.value < |arr| {
        if arrayIndex.value < 0 {
          // a negative list index raises
          return Missing;
        }
        node := Some(arr[arrayIndex.value]);
      } else {
        return Missing;
      }
    }
    next := At(node);
  }
}
