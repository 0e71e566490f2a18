// The loosely typed document tree the KV3 parser builds, and the dotted-path
// query that reads scalars out of it.
module Document {
  import opened Results
  import opened Scanner

  /** A parsed KV3 value: an object (keys unique, the last write wins), an
      array, or a scalar. Scalars keep their quote characters; byte blobs are
      scalars holding the normalised blob text. */
  datatype Value =
    | Obj(fields: map<string, Value>)
    | Arr(items: seq<Value>)
    | Str(text: string)

  // ---------------------------------------------------------------------------
  // Splitting a path on '.'

  /** The pieces of `s` between dots, empty pieces kept (string.Split('.')). */
  function SplitDots(s: string): (parts: seq<string>)
    ensures |parts| >= 1
    ensures forall k :: 0 <= k < |parts| ==> '.' !in parts[k]
    decreases |s|
  {
    var d := FirstFrom(s, 0, {'.'});
    FirstFromFinds(s, 0, {'.'});
    if d == |s| then [s] else [s[..d]] + SplitDots(s[d + 1..])
  }

  /** The pieces joined with '.' between neighbours. */
  function JoinDots(parts: seq<string>): string
    requires |parts| >= 1
  {
    if |parts| == 1 then parts[0] else parts[0] + "." + JoinDots(parts[1..])
  }

  /** Splitting a path and joining the pieces gives the path back. */
  lemma {:induction false} JoinSplitDots(s: string)
    ensures JoinDots(SplitDots(s)) == s
    decreases |s|
  {
    var d := FirstFrom(s, 0, {'.'});
    FirstFromFinds(s, 0, {'.'});
    if d < |s| {
      JoinSplitDots(s[d + 1..]);
      assert s == s[..d] + "." + s[d + 1..];
    }
  }

  /** Joining dot-free pieces and splitting the result gives the pieces back. */
  lemma {:induction false} SplitJoinDots(parts: seq<string>)
    requires |parts| >= 1
    requires forall k :: 0 <= k < |parts| ==> '.' !in parts[k]
    ensures SplitDots(JoinDots(parts)) == parts
    decreases |parts|
  {
    var s := JoinDots(parts);
    if |parts| == 1 {
      FirstFromAt(s, 0, {'.'}, |s|);
    } else {
      var p := parts[0];
      assert s == p + "." + JoinDots(parts[1..]);
      FirstFromAt(s, 0, {'.'}, |p|);
      assert s[..|p|] == p;
      assert s[|p| + 1..] == JoinDots(parts[1..]);
      SplitJoinDots(parts[1..]);
    }
  }

  // ---------------------------------------------------------------------------
  // int.Parse and int.ToString on the array index of a segment

  predicate IsDigit(c: char) { '0' <= c <= '9' }

  predicate AllDigits(s: string) { forall k :: 0 <= k < |s| ==> IsDigit(s[k]) }

  /** The white space int.Parse tolerates around the number. */
  predicate IsNumberWhite(c: char) { c == ' ' || '\t' <= c <= '\r' }

  /** int.Parse drops the white space before the number. */
  function TrimStart(s: string): (t: string)
    ensures t == [] || !IsNumberWhite(t[0])
    ensures |t| <= |s| && t == s[|s| - |t|..]
  {
    if s != [] && IsNumberWhite(s[0]) then TrimStart(s[1..]) else s
  }

  /** int.Parse drops the white space after the number. */
  function TrimEnd(s: string): (t: string)
    ensures t == [] || !IsNumberWhite(t[|t| - 1])
    ensures |t| <= |s| && t == s[..|t|]
  {
    if s != [] && IsNumberWhite(s[|s| - 1]) then TrimEnd(s[..|s| - 1]) else s
  }

  /** What TrimStart drops is all white space, so it drops all the leading white space and nothing else. */
  lemma {:induction false} TrimStartDropsWhite(s: string)
    ensures forall k :: 0 <= k < |s| - |TrimStart(s)| ==> IsNumberWhite(s[k])
    decreases |s|
  {
    if s != [] && IsNumberWhite(s[0]) {
      TrimStartDropsWhite(s[1..]);
      forall k | 1 <= k < |s| - |TrimStart(s)|
        ensures IsNumberWhite(s[k])
      {
        assert s[k] == s[1..][k - 1];
      }
    }
  }

  /** What TrimEnd drops is all white space, so it drops all the trailing white space and nothing else. */
  lemma {:induction false} TrimEndDropsWhite(s: string)
    ensures forall k :: |TrimEnd(s)| <= k < |s| ==> IsNumberWhite(s[k])
    decreases |s|
  {
    if s != [] && IsNumberWhite(s[|s| - 1]) {
      TrimEndDropsWhite(s[..|s| - 1]);
    }
  }

  /** The value of a run of decimal digits, most significant first. */
  function DigitsValue(s: string): nat
    requires AllDigits(s)
  {
    if s == [] then 0 else 10 * DigitsValue(s[..|s| - 1]) + (s[|s| - 1] as int - '0' as int)
  }

  const Int32Min: int := -0x8000_0000
  const Int32Max: int := 0x7FFF_FFFF

  /** The number itself: an optional sign and at least one decimal digit. */
  predicate NumberText(t: string) {
    var digits := if t != [] && (t[0] == '-' || t[0] == '+') then t[1..] else t;
    digits != [] && AllDigits(digits)
  }

  /** The value a number denotes: its digits, negated after a `-`. */
  function NumberValue(t: string): int
    requires NumberText(t)
  {
    if t[0] == '-' then 0 - (DigitsValue(t[1..]) as int)
    else if t[0] == '+' then DigitsValue(t[1..])
    else DigitsValue(t)
  }

  /** `s` is a number between `a` and `b` with only white space around it. */
  predicate IntText(s: string, a: nat, b: nat) {
    a <= b <= |s| && NumberText(s[a..b]) &&
    (forall k :: 0 <= k < a ==> IsNumberWhite(s[k])) &&
    (forall k :: b <= k < |s| ==> IsNumberWhite(s[k]))
  }

  /** int.Parse ignores NUL characters at the very end of the text. */
  function DropNuls(s: string): (t: string)
    ensures t == [] || t[|t| - 1] != '\0'
    ensures |t| <= |s| && t == s[..|t|]
  {
    if s != [] && s[|s| - 1] == '\0' then DropNuls(s[..|s| - 1]) else s
  }

  /** What DropNuls drops is all NUL characters. */
  lemma {:induction false} DropNulsOnlyNuls(s: string)
    ensures forall k :: |DropNuls(s)| <= k < |s| ==> s[k] == '\0'
    decreases |s|
  {
    if s != [] && s[|s| - 1] == '\0' {
      DropNulsOnlyNuls(s[..|s| - 1]);
    }
  }

  /** Appending NUL characters to a text that does not end with one is undone
      by DropNuls. */
  lemma {:induction false} DropNulsAt(s: string, z: string)
    requires s == [] || s[|s| - 1] != '\0'
    requires forall k :: 0 <= k < |z| ==> z[k] == '\0'
    ensures DropNuls(s + z) == s
    decreases |z|
  {
    if z == [] {
      assert s + z == s;
    } else {
      assert (s + z)[..|s + z| - 1] == s + z[..|z| - 1];
      DropNulsAt(s, z[..|z| - 1]);
    }
  }

  /** int.Parse: optional white space, an optional sign, at least one digit,
      optional white space, then any number of NUL characters; the value must
      fit in 32 bits. None is the exception it raises otherwise. */
  function ParseInt(s: string): (r: Option<int>)
    ensures r.Some? ==> Int32Min <= r.value <= Int32Max
  {
    var t := TrimEnd(TrimStart(DropNuls(s)));
    if !NumberText(t) then None
    else
      var v := NumberValue(t);
      if Int32Min <= v <= Int32Max then Some(v) else None
  }

  /** Dropping leading white space up to a character that is not white space. */
  lemma {:induction false} TrimStartAt(s: string, a: nat)
    requires a <= |s| && forall k :: 0 <= k < a ==> IsNumberWhite(s[k])
    requires a == |s| || !IsNumberWhite(s[a])
    ensures TrimStart(s) == s[a..]
    decreases a
  {
    if a > 0 {
      TrimStartAt(s[1..], a - 1);
    }
  }

  /** Dropping the white space that trails the suffix from `a`, back to a
      character that is not white space. */
  lemma {:induction false} TrimEndAt(s: string, a: nat, b: nat)
    requires a <= b <= |s| && forall k :: b <= k < |s| ==> IsNumberWhite(s[k])
    requires b == a || !IsNumberWhite(s[b - 1])
    ensures TrimEnd(s[a..]) == s[a..b]
    decreases |s| - b
  {
    if b < |s| {
      var front := s[..|s| - 1];
      assert s[a..][..|s| - a - 1] == front[a..];
      assert front[a..b] == s[a..b];
      TrimEndAt(front, a, b);
    }
  }

  /** A number with white space around it, followed by any run `z` of NUL
      characters, is what int.Parse accepts: it yields the number's value when
      that fits in 32 bits, and None otherwise. */
  lemma {:induction false} ParseIntAccepts(s: string, a: nat, b: nat, z: string)
    requires IntText(s, a, b)
    requires forall k :: 0 <= k < |z| ==> z[k] == '\0'
    ensures ParseInt(s + z) == if Int32Min <= NumberValue(s[a..b]) <= Int32Max then Some(NumberValue(s[a..b])) else None
  {
    var t := s[a..b];
    NumberEnds(t);
    assert s[a] == t[0] && s[b - 1] == t[|t| - 1];
    assert s[|s| - 1] != '\0';
    DropNulsAt(s, z);
    TrimBoth(s, a, b);
  }

  /** Trimming both ends leaves exactly the part between the white space. */
  lemma {:induction false} TrimBoth(s: string, a: nat, b: nat)
    requires a < b <= |s| && !IsNumberWhite(s[a]) && !IsNumberWhite(s[b - 1])
    requires forall k :: 0 <= k < a ==> IsNumberWhite(s[k])
    requires forall k :: b <= k < |s| ==> IsNumberWhite(s[k])
    ensures TrimEnd(TrimStart(s)) == s[a..b]
  {
    TrimStartAt(s, a);
    TrimEndAt(s, a, b);
  }

  /** A number neither starts nor ends with white space. */
  lemma {:induction false} NumberEnds(t: string)
    requires NumberText(t)
    ensures t != [] && !IsNumberWhite(t[0]) && !IsNumberWhite(t[|t| - 1])
    ensures IsDigit(t[|t| - 1])
  {
    var digits := if t[0] == '-' || t[0] == '+' then t[1..] else t;
    assert t[|t| - 1] == digits[|digits| - 1];
    assert IsDigit(digits[|digits| - 1]);
    if t[0] != '-' && t[0] != '+' {
      assert IsDigit(digits[0]);
    }
  }

  /** Whatever int.Parse accepts is a number with white space around it,
      followed by NUL characters only, and the value it yields is that
      number's. */
  lemma {:induction false} ParseIntText(s: string)
    ensures ParseInt(s).Some? ==> exists a: nat, b: nat :: IntText(DropNuls(s), a, b) && ParseInt(s).value == NumberValue(DropNuls(s)[a..b])
  {
    if ParseInt(s).Some? {
      var u := DropNuls(s);
      var a, b := TrimSplit(u);
      assert NumberText(u[a..b]);
      assert IntText(u, a, b);
    }
  }

  /** The two trims split the text into leading white space, the trimmed
      part and trailing white space. */
  lemma {:induction false} TrimSplit(s: string) returns (a: nat, b: nat)
    ensures a <= b <= |s| && s[a..b] == TrimEnd(TrimStart(s))
    ensures forall k :: 0 <= k < a ==> IsNumberWhite(s[k])
    ensures forall k :: b <= k < |s| ==> IsNumberWhite(s[k])
  {
    var u := TrimStart(s);
    a := |s| - |u|;
    var t := TrimEnd(u);
    b := a + |t|;
    SliceOfSuffix(s, a, b);
    TrimStartDropsWhite(s);
    TrimEndDropsWhite(u);
    forall k | b <= k < |s|
      ensures IsNumberWhite(s[k])
    {
      assert s[k] == u[k - a];
    }
  }

  lemma SliceOfSuffix(s: string, a: nat, b: nat)
    requires a <= b <= |s|
    ensures s[a..][..b - a] == s[a..b]
  {
  }

  /** int.ToString of a non-negative number. */
  function DecimalString(n: nat): (s: string)
    ensures s != [] && AllDigits(s)
  {
    if n < 10 then [('0' as int + n) as char]
    else DecimalString(n / 10) + [('0' as int + n % 10) as char]
  }

  lemma {:induction false} DecimalValue(n: nat)
    ensures DigitsValue(DecimalString(n)) == n
  {
    if n >= 10 {
      var s := DecimalString(n);
      assert s[..|s| - 1] == DecimalString(n / 10);
      DecimalValue(n / 10);
    }
  }

  /** int.Parse reads back what int.ToString wrote. */
  lemma ParseDecimal(n: nat)
    requires n <= Int32Max
    ensures ParseInt(DecimalString(n)) == Some(n)
  {
    var s := DecimalString(n);
    assert s[..0] == [] && s[0..|s|] == s && s[|s|..] == [];
    assert s[0] != '-' && s[0] != '+' by {
      assert IsDigit(s[0]);
    }
    DecimalValue(n);
    assert s + [] == s;
    ParseIntAccepts(s, 0, |s|, []);
  }

  // ---------------------------------------------------------------------------
  // Path segments and their resolution

  /** One path segment: a key and an optional array index. */
  datatype Segment = Segment(key: string, index: Option<int>)

  /** How a segment reads: everything before the first '[' is the key; the text
      between it and the next ']' must parse as an integer. None stands for the
      exception raised by a missing ']' (a negative substring length) or by
      int.Parse; text after the ']' is ignored. */
  function ParseSegment(seg: string): (r: Option<Segment>)
    ensures ('[' !in seg) <==> r == Some(Segment(seg, None))
  {
    var b := FirstFrom(seg, 0, {'['});
    FirstFromFinds(seg, 0, {'['});
    if b == |seg| then Some(Segment(seg, None))
    else
      var e := FirstFrom(seg, b, {']'});
      if e == |seg| then None
      else
        match ParseInt(seg[b + 1..e])
        case None => None
        case Some(n) => Some(Segment(seg[..b], Some(n)))
  }

  /** A segment whose first `[` has no `]` after it fails to parse. */
  lemma {:induction false} ParseSegmentUnclosed(seg: string, b: nat)
    requires b < |seg| && seg[b] == '[' && forall k :: 0 <= k < b ==> seg[k] != '['
    requires forall k :: b < k < |seg| ==> seg[k] != ']'
    ensures ParseSegment(seg) == None
  {
    FirstFromAt(seg, 0, {'['}, b);
    FirstFromAt(seg, b, {']'}, |seg|);
  }

  /** A segment with its first `[` at `b` and the next `]` at `e` has the
      key before the `[` and the index int.Parse reads from between the
      brackets; when int.Parse rejects that text, the segment fails. */
  lemma {:induction false} ParseSegmentIndexed(seg: string, b: nat, e: nat)
    requires b < e < |seg| && seg[b] == '[' && seg[e] == ']'
    requires forall k :: 0 <= k < b ==> seg[k] != '['
    requires forall k :: b < k < e ==> seg[k] != ']'
    ensures ParseInt(seg[b + 1..e]).None? ==> ParseSegment(seg) == None
    ensures ParseInt(seg[b + 1..e]).Some? ==> ParseSegment(seg) == Some(Segment(seg[..b], ParseInt(seg[b + 1..e])))
  {
    FirstFromAt(seg, 0, {'['}, b);
    FirstFromAt(seg, b, {']'}, e);
    SegmentAtBrackets(seg, b, e);
  }

  lemma SegmentAtBrackets(seg: string, b: nat, e: nat)
    requires b < e < |seg| && FirstFrom(seg, 0, {'['}) == b && FirstFrom(seg, b, {']'}) == e
    ensures ParseSegment(seg) == if ParseInt(seg[b + 1..e]).None? then None else Some(Segment(seg[..b], ParseInt(seg[b + 1..e])))
  {
    var p := ParseInt(seg[b + 1..e]);
    if p.None? {
      assert ParseSegment(seg) == None;
    } else {
      assert ParseSegment(seg) == Some(Segment(seg[..b], Some(p.value)));
    }
  }

  /** A segment `key[n]` reads back as that key and index. */
  lemma ParseIndexedSegment(key: string, n: nat)
    requires '[' !in key && ']' !in key
    requires n <= Int32Max
    ensures ParseSegment(key + "[" + DecimalString(n) + "]") == Some(Segment(key, Some(n)))
  {
    var d := DecimalString(n);
    var seg := key + "[" + d + "]";
    BracketedText(key, d, seg);
    ParseDecimal(n);
    ParseSegmentIndexed(seg, |key|, |key| + 1 + |d|);
  }

  /** Where the brackets of `key[d]` are, and what lies around them. */
  lemma BracketedText(key: string, d: string, seg: string)
    requires seg == key + "[" + d + "]" && '[' !in key && AllDigits(d)
    ensures seg[|key|] == '[' && seg[|key| + 1 + |d|] == ']'
    ensures forall k :: 0 <= k < |key| ==> seg[k] != '['
    ensures forall k :: |key| < k < |key| + 1 + |d| ==> seg[k] != ']'
    ensures seg[|key| + 1..|key| + 1 + |d|] == d && seg[..|key|] == key
  {
    assert forall k :: 0 <= k < |key| ==> seg[k] == key[k];
    assert forall k :: |key| < k < |key| + 1 + |d| ==> seg[k] == d[k - |key| - 1];
  }

  /** Where resolution stands: Missing ends the query with "", At carries the
      current node (None is the parser's `null` before any parse). */
  datatype Lookup = Missing | At(node: Option<Value>)

  /** The key half of a segment: the key is looked up only when the current
      node is an object; on any other node it is not checked at all. */
  function KeyStep(cur: Option<Value>, key: string): Lookup {
    match cur
    case Some(Obj(m)) => if key in m then At(Some(m[key])) else Missing
    case _ => At(cur)
  }

  /** The index half of a segment: applied only when there is an index and the
      node is an array; an index past the end misses, and a negative index
      raises, which the query turns into "". */
  function IndexStep(n: Option<Value>, index: Option<int>): Lookup {
    match (index, n)
    case (Some(i), Some(Arr(a))) =>
      if i < |a| then (if 0 <= i then At(Some(a[i])) else Missing) else Missing
    case _ => At(n)
  }

  /** One segment of GetValue's loop. */
  function Step(cur: Option<Value>, sg: Segment): Lookup {
    match KeyStep(cur, sg.key)
    case Missing => Missing
    case At(n) => IndexStep(n, sg.index)
  }

  /** Resolution of the segments left to right. */
  function Resolve(cur: Option<Value>, parts: seq<string>): Lookup
    decreases |parts|
  {
    if parts == [] then At(cur)
    else
      match ParseSegment(parts[0])
      case None => Missing
      case Some(sg) =>
        match Step(cur, sg)
        case Missing => Missing
        case At(n) => Resolve(n, parts[1..])
  }

  /** One step of the resolution, unfolded. */
  lemma ResolveHead(cur: Option<Value>, parts: seq<string>)
    requires parts != []
    ensures Resolve(cur, parts) ==
            match ParseSegment(parts[0])
            case None => Missing
            case Some(sg) =>
              match Step(cur, sg)
              case Missing => Missing
              case At(n) => Resolve(n, parts[1..])
  {
  }

  /** The scalar a resolution ends on, or "". */
  function Final(l: Lookup): string {
    match l
    case At(Some(Str(s))) => s
    case _ => ""
  }

  /** GetValue: resolve `path` against the parsed document. */
  function Query(doc: Option<Value>, path: string): string {
    Final(Resolve(doc, SplitDots(path)))
  }

  /** Resolving a concatenation resolves the first part, then the rest from there. */
  lemma {:induction false} ResolveAppend(cur: Option<Value>, a: seq<string>, b: seq<string>)
    ensures Resolve(cur, a + b) ==
            match Resolve(cur, a)
            case Missing => Missing
            case At(n) => Resolve(n, b)
    decreases |a|
  {
    if a == [] {
      assert a + b == b;
    } else {
      assert (a + b)[0] == a[0] && (a + b)[1..] == a[1..] + b;
      match ParseSegment(a[0])
      case None =>
      case Some(sg) =>
        match Step(cur, sg)
        case Missing =>
        case At(n) => ResolveAppend(n, a[1..], b);
    }
  }

  /** Once resolution misses, no later segment can bring it back. */
  lemma {:induction false} ResolveMissingSticks(cur: Option<Value>, a: seq<string>, b: seq<string>)
    requires Resolve(cur, a) == Missing
    ensures Resolve(cur, a + b) == Missing
  {
    ResolveAppend(cur, a, b);
  }

  /** No piece holds a dot. */
  predicate DotFree(parts: seq<string>) {
    forall k :: 0 <= k < |parts| ==> '.' !in parts[k]
  }

  /** A path of dot-free segments is resolved segment by segment. */
  lemma QueryParts(doc: Option<Value>, parts: seq<string>)
    requires |parts| >= 1
    requires DotFree(parts)
    ensures Query(doc, JoinDots(parts)) == Final(Resolve(doc, parts))
  {
    SplitJoinDots(parts);
  }

  /** A key missing from the object reached so far gives "". */
  lemma QueryMissingKey(doc: Option<Value>, pre: seq<string>, seg: string, post: seq<string>,
                        m: map<string, Value>, sg: Segment)
    requires DotFree(pre + [seg] + post)
    requires Resolve(doc, pre) == At(Some(Obj(m)))
    requires ParseSegment(seg) == Some(sg) && sg.key !in m
    ensures Query(doc, JoinDots(pre + [seg] + post)) == ""
  {
    ResolveAppend(doc, pre, [seg]);
    ResolveMissingSticks(doc, pre + [seg], post);
    QueryParts(doc, pre + [seg] + post);
  }

  /** An index at or past the end of the array reached gives "". */
  lemma QueryIndexPastEnd(doc: Option<Value>, pre: seq<string>, seg: string, post: seq<string>,
                          key: string, i: int, a: seq<Value>)
    requires DotFree(pre + [seg] + post)
    requires ParseSegment(seg) == Some(Segment(key, Some(i)))
    requires i >= |a|
    requires Resolve(doc, pre + [key]) == At(Some(Arr(a)))
    requires '[' !in key
    ensures Query(doc, JoinDots(pre + [seg] + post)) == ""
  {
    ResolveAppend(doc, pre, [key]);
    ResolveAppend(doc, pre, [seg]);
    ResolveMissingSticks(doc, pre + [seg], post);
    QueryParts(doc, pre + [seg] + post);
  }

  /** The text of `key[n]` holds no dot when the key holds none. */
  lemma IndexedSegmentDotFree(key: string, n: nat)
    requires '.' !in key
    ensures '.' !in key + "[" + DecimalString(n) + "]"
  {
    var d := DecimalString(n);
    assert forall k :: 0 <= k < |d| ==> IsDigit(d[k]);
  }

  /** Each segment of a dot-free path is dot-free. */
  lemma DotFreeMiddle(pre: seq<string>, key: string, post: seq<string>)
    requires DotFree(pre + [key] + post)
    ensures '.' !in key
  {
    assert key == (pre + [key] + post)[|pre|];
  }

  /** Replacing a segment of a dot-free path by a dot-free one keeps it dot-free. */
  lemma ReplaceDotFree(pre: seq<string>, key: string, seg: string, post: seq<string>)
    requires DotFree(pre + [key] + post)
    requires '.' !in seg
    ensures DotFree(pre + [seg] + post)
  {
    forall k | 0 <= k < |pre + [seg] + post|
      ensures '.' !in (pre + [seg] + post)[k]
    {
      if k != |pre| {
        assert (pre + [seg] + post)[k] == (pre + [key] + post)[k];
      }
    }
  }

  /** The path `pre.key[n].post` with `n` the length of the array that
      `pre.key` reaches gives "": the loops that read element 0, 1, 2, ... of
      an array stop there. */
  lemma QueryPastEnd(doc: Option<Value>, pre: seq<string>, key: string, post: seq<string>, a: seq<Value>)
    requires DotFree(pre + [key] + post)
    requires '[' !in key && ']' !in key
    requires |a| <= Int32Max
    requires Resolve(doc, pre + [key]) == At(Some(Arr(a)))
    ensures Query(doc, JoinDots(pre + [key + "[" + DecimalString(|a|) + "]"] + post)) == ""
  {
    var seg := key + "[" + DecimalString(|a|) + "]";
    ParseIndexedSegment(key, |a|);
    DotFreeMiddle(pre, key, post);
    IndexedSegmentDotFree(key, |a|);
    ReplaceDotFree(pre, key, seg, post);
    QueryIndexPastEnd(doc, pre, seg, post, key, |a|, a);
  }

  /** A negative index into the array reached gives "". */
  lemma QueryNegativeIndex(doc: Option<Value>, pre: seq<string>, seg: string, post: seq<string>,
                           key: string, i: int, a: seq<Value>)
    requires DotFree(pre + [seg] + post)
    requires ParseSegment(seg) == Some(Segment(key, Some(i)))
    requires i < 0
    requires Resolve(doc, pre + [key]) == At(Some(Arr(a)))
    requires '[' !in key
    ensures Query(doc, JoinDots(pre + [seg] + post)) == ""
  {
    ResolveAppend(doc, pre, [key]);
    ResolveAppend(doc, pre, [seg]);
    ResolveMissingSticks(doc, pre + [seg], post);
    QueryParts(doc, pre + [seg] + post);
  }

  /** A segment whose index does not parse gives "", whatever the document. */
  lemma QueryMalformedIndex(doc: Option<Value>, pre: seq<string>, seg: string, post: seq<string>)
    requires DotFree(pre + [seg] + post)
    requires ParseSegment(seg) == None
    ensures Query(doc, JoinDots(pre + [seg] + post)) == ""
  {
    ResolveAppend(doc, pre, [seg]);
    assert Resolve(doc, pre + [seg]) == Missing by {
      match Resolve(doc, pre)
      case Missing =>
      case At(n) =>
    }
    ResolveMissingSticks(doc, pre + [seg], post);
    QueryParts(doc, pre + [seg] + post);
  }

  /** A segment whose first `[` has no `]` after it gives "", whatever the document. */
  lemma QueryUnclosedIndex(doc: Option<Value>, pre: seq<string>, seg: string, post: seq<string>, b: nat)
    requires DotFree(pre + [seg] + post)
    requires b < |seg| && seg[b] == '[' && forall k :: 0 <= k < b ==> seg[k] != '['
    requires forall k :: b < k < |seg| ==> seg[k] != ']'
    ensures Query(doc, JoinDots(pre + [seg] + post)) == ""
  {
    ParseSegmentUnclosed(seg, b);
    QueryMalformedIndex(doc, pre, seg, post);
  }

  /** A segment whose bracket text int.Parse rejects gives "", whatever the document. */
  lemma QueryRejectedIndex(doc: Option<Value>, pre: seq<string>, seg: string, post: seq<string>, b: nat, e: nat)
    requires DotFree(pre + [seg] + post)
    requires b < e < |seg| && seg[b] == '[' && seg[e] == ']'
    requires forall k :: 0 <= k < b ==> seg[k] != '['
    requires forall k :: b < k < e ==> seg[k] != ']'
    requires ParseInt(seg[b + 1..e]) == None
    ensures Query(doc, JoinDots(pre + [seg] + post)) == ""
  {
    ParseSegmentIndexed(seg, b, e);
    QueryMalformedIndex(doc, pre, seg, post);
  }

  /** A path that ends on an object or an array gives "". */
  lemma QueryNonScalar(doc: Option<Value>, parts: seq<string>)
    requires |parts| >= 1
    requires forall k :: 0 <= k < |parts| ==> '.' !in parts[k]
    requires Resolve(doc, parts).At? && Resolve(doc, parts).node.Some?
    requires !Resolve(doc, parts).node.value.Str?
    ensures Query(doc, JoinDots(parts)) == ""
  {
    QueryParts(doc, parts);
  }

  /** On an array the key of a segment is never checked: `anything[i]` indexes it. */
  lemma QueryKeyIgnoredOnArray(doc: Option<Value>, pre: seq<string>, seg: string, post: seq<string>,
                               i: int, a: seq<Value>)
    requires DotFree(pre + [seg] + post)
    requires Resolve(doc, pre) == At(Some(Arr(a)))
    requires ParseSegment(seg).Some? && ParseSegment(seg).value.index == Some(i)
    requires 0 <= i < |a|
    ensures Query(doc, JoinDots(pre + [seg] + post)) == Final(Resolve(Some(a[i]), post))
  {
    var sg := ParseSegment(seg).value;
    assert Step(Some(Arr(a)), sg) == At(Some(a[i]));
    assert Resolve(Some(Arr(a)), [seg]) == At(Some(a[i]));
    ResolveAppend(doc, pre, [seg]);
    ResolveAppend(doc, pre + [seg], post);
    QueryParts(doc, pre + [seg] + post);
  }

  /** A path of plain keys through nested objects reaches the scalar stored there. */
  lemma {:induction false} QueryKeys(v: Value, keys: seq<string>, s: string)
    requires |keys| >= 1
    requires forall k :: 0 <= k < |keys| ==> '.' !in keys[k] && '[' !in keys[k]
    requires Reach(v, keys) == Some(Str(s))
    ensures Query(Some(v), JoinDots(keys)) == s
  {
    ResolveKeys(v, keys);
    QueryParts(Some(v), keys);
  }

  /** Following plain keys through nested objects. */
  function Reach(v: Value, keys: seq<string>): Option<Value>
    decreases |keys|
  {
    if keys == [] then Some(v)
    else match v
      case Obj(m) => if keys[0] in m then Reach(m[keys[0]], keys[1..]) else None
      case _ => None
  }

  lemma {:induction false} ResolveKeys(v: Value, keys: seq<string>)
    requires forall k :: 0 <= k < |keys| ==> '[' !in keys[k]
    requires Reach(v, keys).Some?
    ensures Resolve(Some(v), keys) == At(Reach(v, keys))
    decreases |keys|
  {
    if keys != [] {
      assert ParseSegment(keys[0]) == Some(Segment(keys[0], None));
      ResolveKeys(v.fields[keys[0]], keys[1..]);
    }
  }
}
