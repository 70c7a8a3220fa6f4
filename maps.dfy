/**
 * The nested configuration tree of com.brambolt.util.Maps: a tree of maps
 * whose leaves are strings, built from flat dotted property names, merged
 * with an overlay, and read back along a list of segments.
 */
module Maps {
  import opened Wrappers
  import opened StringOps

  /** A value held in a nested map: a string, or a map from keys to values. */
  datatype Node = Scalar(text: string) | Branch(children: map<string, Node>)

  /** The exceptions of the core, one constructor per cause. */
  datatype MapError =
      /** asMap with an odd number of parameters (ArrayIndexOutOfBoundsException) */
    | PairIndexOutOfBounds
      /** overwrite of a map by a non-map or the reverse (IllegalStateException) */
    | InvalidReplacement(existing: Node, replacement: Node)
      /** throwIfNotFound: the key and the map searched (NoSuchElementException) */
    | NotFound(key: string, searched: map<string, Node>)
      /** a string value used where a map is needed (ClassCastException) */
    | CastFailure(scalar: string)
      /** insert with an empty segment list (IllegalArgumentException) */
    | EmptySegments
      /** insertValue onto a key that is already there (IllegalStateException) */
    | SecondValue(name: string, existing: Node, value: string)
      /** insertTail's RuntimeException wrapping any failure below an existing key */
    | InsertionFailed(name: string, found: Node, cause: MapError)

  // =====================================================================
  // asMap
  // =====================================================================

  /** The map the pairs of an even-length parameter list give, put in order. */
  function PairsMap<T(==)>(pairs: seq<T>): (r: map<T, T>)
    requires |pairs| % 2 == 0
    ensures |r| <= |pairs| / 2
    ensures |pairs| > 0 ==> pairs[|pairs| - 2] in r && r[pairs[|pairs| - 2]] == pairs[|pairs| - 1]
    decreases |pairs|
  {
    if |pairs| == 0 then map[]
    else PairsMap(pairs[..|pairs| - 2])[pairs[|pairs| - 2] := pairs[|pairs| - 1]]
  }

  /**
   * Maps.asMap: parameters 0, 2, 4, ... are keys, each followed by its
   * value; an odd count fails when the missing last value is read.
   */
  method AsMap<T(==)>(pairs: seq<T>) returns (r: Result<map<T, T>, MapError>)
    ensures r.Failure? <==> |pairs| % 2 == 1
    ensures r.Failure? ==> r.error == PairIndexOutOfBounds
    ensures r.Success? ==> r.value == PairsMap(pairs)
  {
    var m: map<T, T> := map[];
    var i := 0;
    while i < |pairs|
      invariant 0 <= i <= |pairs| && i % 2 == 0
      invariant m == PairsMap(pairs[..i])
    {
      if i + 1 >= |pairs| {
        return Failure(PairIndexOutOfBounds);
      }
      assert pairs[..i + 2][..i] == pairs[..i];
      m := m[pairs[i] := pairs[i + 1]];
      i := i + 2;
    }
    assert pairs[..i] == pairs;
    return Success(m);
  }

  /** The keys of asMap's result are exactly the parameters at even positions. */
  lemma {:induction false} PairsMapKeys<T>(pairs: seq<T>, k: T)
    requires |pairs| % 2 == 0
    ensures k in PairsMap(pairs) <==> exists i :: 0 <= i < |pairs| && i % 2 == 0 && pairs[i] == k
    decreases |pairs|
  {
    if |pairs| > 0 {
      var q := pairs[..|pairs| - 2];
      PairsMapKeys(q, k);
      if k in PairsMap(q) {
        var i :| 0 <= i < |q| && i % 2 == 0 && q[i] == k;
        assert pairs[i] == k;
      }
      if k !in PairsMap(pairs) {
        forall i | 0 <= i < |pairs| && i % 2 == 0 ensures pairs[i] != k {
          if i < |q| { assert q[i] == pairs[i]; }
        }
      }
    }
  }

  /** No later key position of `pairs` repeats the key at position `i`. */
  predicate IsLastKey<T(==)>(pairs: seq<T>, i: nat)
  {
    forall j :: i < j < |pairs| && j % 2 == 0 ==> pairs[j] != pairs[i]
  }

  /** A repeated key keeps the value that follows its last occurrence. */
  lemma {:induction false} PairsMapLastWins<T>(pairs: seq<T>, i: nat)
    requires |pairs| % 2 == 0 && i < |pairs| && i % 2 == 0 && IsLastKey(pairs, i)
    ensures pairs[i] in PairsMap(pairs) && PairsMap(pairs)[pairs[i]] == pairs[i + 1]
    decreases |pairs|
  {
    if i < |pairs| - 2 {
      var q := pairs[..|pairs| - 2];
      assert IsLastKey(q, i) by {
        forall j | i < j < |q| && j % 2 == 0 ensures q[j] != q[i] {
          assert q[j] == pairs[j];
        }
      }
      assert pairs[|pairs| - 2] != pairs[i];
      PairsMapLastWins(q, i);
    }
  }

  // =====================================================================
  // format, and the toString of the values
  // =====================================================================

  /** toString of a value: a string is itself; a map is "{k=v, ...}", here in key order. */
  function Render(n: Node): (r: string)
    ensures n.Scalar? ==> r == n.text
    ensures n.Branch? ==> |r| >= 2 && r[0] == '{' && r[|r| - 1] == '}'
    ensures n == Branch(map[]) ==> r == "{}"
    decreases n, 1, 0
  {
    match n
    case Scalar(s) => s
    case Branch(c) => "{" + Join(Entries(c, SortedKeys(c.Keys)), ", ") + "}"
  }

  /** The "key=value" pieces of `m` for `keys`, in the order of `keys`. */
  function Entries(m: map<string, Node>, keys: seq<string>): (r: seq<string>)
    requires forall k :: k in keys ==> k in m
    ensures |r| == |keys|
    ensures forall i :: 0 <= i < |keys| ==> r[i] == keys[i] + "=" + Render(m[keys[i]])
    decreases Branch(m), 0, |keys|
  {
    if |keys| == 0 then []
    else [keys[0] + "=" + Render(m[keys[0]])] + Entries(m, keys[1..])
  }

  /** Maps.format(map, delimiter): the "key=value" pieces in ascending key order, joined. */
  function Format(m: map<string, Node>, delimiter: string): (r: string)
    ensures m == map[] ==> r == ""
    ensures forall k, v :: m == map[k := v] ==> r == k + "=" + Render(v)
  {
    FormatSingleEntry(m, delimiter);
    Join(Entries(m, SortedKeys(m.Keys)), delimiter)
  }

  /** The entries of a map with one key join into that one entry. */
  lemma FormatSingleEntry(m: map<string, Node>, delimiter: string)
    ensures forall k, v :: m == map[k := v] ==> Join(Entries(m, SortedKeys(m.Keys)), delimiter) == k + "=" + Render(v)
  {
    var keys := SortedKeys(m.Keys);
    var pieces := Entries(m, keys);
    forall k, v | m == map[k := v]
      ensures Join(pieces, delimiter) == k + "=" + Render(v)
    {
      assert m.Keys == {k};
      assert keys == [k];
    }
  }

  /** `piece` occurs in `s` at some position. */
  predicate Occurs(piece: string, s: string) {
    exists o :: 0 <= o <= |s| && StartsWith(s[o..], piece)
  }

  /** Every piece of a join occurs in the joined text. */
  lemma {:induction false} JoinHoldsPiece(pieces: seq<string>, sep: string, i: nat)
    requires i < |pieces|
    ensures Occurs(pieces[i], Join(pieces, sep))
    decreases |pieces|
  {
    var s := Join(pieces, sep);
    if i == 0 {
      assert s[0..] == s;
    } else {
      JoinHoldsPiece(pieces[1..], sep, i - 1);
      var t := Join(pieces[1..], sep);
      var o :| 0 <= o <= |t| && StartsWith(t[o..], pieces[i]);
      var off := |pieces[0] + sep|;
      assert s == pieces[0] + sep + t;
      assert s[off + o..] == t[o..];
    }
  }

  /** The formatted map holds the "key=value" piece of every key. */
  lemma FormatHoldsEntry(m: map<string, Node>, delimiter: string, k: string)
    requires k in m
    ensures Occurs(k + "=" + Render(m[k]), Format(m, delimiter))
  {
    var keys := SortedKeys(m.Keys);
    var i :| 0 <= i < |keys| && keys[i] == k;
    JoinHoldsPiece(Entries(m, keys), delimiter, i);
  }

  /** Maps.format(map): one piece per line. */
  function FormatLines(m: map<string, Node>): (r: string)
    ensures r == Format(m, "\n")
    ensures m == map[] ==> r == ""
    ensures forall k, v :: m == map[k := v] ==> r == k + "=" + Render(v)
  {
    Format(m, "\n")
  }

  /** The exception message the source builds for an error, where it builds one. */
  function Message(e: MapError): (r: Option<string>)
    ensures r.None? <==> e.PairIndexOutOfBounds? || e.CastFailure?
    ensures e.NotFound? ==> StartsWith(r.value, "Not found: " + e.key)
    ensures e.SecondValue? ==> StartsWith(r.value, "Second value found for property " + e.name)
    ensures e.InsertionFailed? ==> StartsWith(r.value, "Property insertion for " + e.name)
  {
    match e
    case PairIndexOutOfBounds => None
    case CastFailure(_) => None
    case InvalidReplacement(v1, v2) => Some("Invalid replacement of " + Render(v1) + " with " + Render(v2))
    case NotFound(k, m) => Some("Not found: " + k + " [" + FormatLines(m) + "]")
    case EmptySegments => Some("Empty segments list [$name] [$map]")
    case SecondValue(name, n, v) =>
      Some("Second value found for property " + name + ": [" + Render(n) + "] [" + v + "]")
    case InsertionFailed(name, n, _) => Some("Property insertion for " + name + " failed: [" + Render(n) + "]")
  }

  // =====================================================================
  // merge and overwrite
  // =====================================================================

  /** Whether overwriting `v1` with `v2` succeeds everywhere below: strings meet strings, maps meet maps. */
  function Compatible(v1: Node, v2: Node): (r: bool)
    ensures r ==> v1.Branch? == v2.Branch?
    ensures v1.Scalar? && v2.Scalar? ==> r
    ensures v1 == v2 ==> r
    decreases v2, 1
  {
    match v2
    case Scalar(_) => v1.Scalar?
    case Branch(c2) => v1.Branch? && MapsCompatible(v1.children, c2)
  }

  /** Whether merging `b` into `a` succeeds: every shared key holds compatible values. */
  predicate MapsCompatible(a: map<string, Node>, b: map<string, Node>)
    decreases Branch(b), 0
  {
    forall k :: k in a && k in b ==> Compatible(a[k], b[k])
  }

  /** The value overwrite(v1, v2) returns: the overlay string, or the merge of two maps. */
  function Overwritten(v1: Node, v2: Node): (r: Node)
    requires Compatible(v1, v2)
    ensures r.Branch? == v2.Branch?
    ensures v2.Scalar? ==> r == v2
    ensures v2.Branch? ==> r.children.Keys == v1.children.Keys + v2.children.Keys
    decreases v2, 1
  {
    if v2.Scalar? then v2 else Branch(MergedMap(v1.children, v2.children))
  }

  /** The map merge(a, b) returns: every key of either side; a shared key holds the overwritten value. */
  function MergedMap(a: map<string, Node>, b: map<string, Node>): (r: map<string, Node>)
    requires MapsCompatible(a, b)
    ensures forall k :: k in b && b[k].Scalar? ==> k in r && r[k] == b[k]
    ensures forall k :: k in b ==> k in r && r[k].Branch? == b[k].Branch?
    decreases Branch(b), 0
  {
    map k | k in a.Keys + b.Keys :: if k in b then (if k in a then Overwritten(a[k], b[k]) else b[k]) else a[k]
  }

  /** The exception overwrite raises: one side a map, the other not. */
  predicate IsReplacementConflict(e: MapError) {
    e.InvalidReplacement? && e.existing.Branch? != e.replacement.Branch?
  }

  /**
   * Maps.merge: a copy of `existing` into which every entry of `overwrites`
   * is merged, key by key in the (unspecified) order of the overlay.
   */
  method Merge(existing: map<string, Node>, overwrites: map<string, Node>) returns (r: Result<map<string, Node>, MapError>)
    ensures r.Success? <==> MapsCompatible(existing, overwrites)
    ensures r.Success? ==> r.value == MergedMap(existing, overwrites)
    ensures r.Failure? ==> IsReplacementConflict(r.error)
    decreases Branch(overwrites), 1
  {
    var results := existing;
    var pending := overwrites.Keys;
    while pending != {}
      invariant pending <= overwrites.Keys
      invariant forall k :: k in existing && k in overwrites && k !in pending ==> Compatible(existing[k], overwrites[k])
      invariant results.Keys == existing.Keys + (overwrites.Keys - pending)
      invariant forall k :: k in existing && (k in pending || k !in overwrites) ==> results[k] == existing[k]
      invariant forall k :: k in overwrites && k !in pending ==>
                  results[k] == if k in existing then Overwritten(existing[k], overwrites[k]) else overwrites[k]
      decreases pending
    {
      var k :| k in pending;
      if k in results {
        var v := Overwrite(results[k], overwrites[k]);
        if v.Failure? {
          return Failure(v.error);
        }
        results := results[k := v.value];
      } else {
        results := results[k := overwrites[k]];
      }
      pending := pending - {k};
    }
    return Success(results);
  }

  /** Maps.overwrite: the overlay string wins, two maps merge, a map against a non-map fails. */
  method Overwrite(v1: Node, v2: Node) returns (r: Result<Node, MapError>)
    ensures r.Success? <==> Compatible(v1, v2)
    ensures r.Success? ==> r.value == Overwritten(v1, v2)
    ensures r.Failure? ==> IsReplacementConflict(r.error)
    decreases v2, 2
  {
    if !v1.Branch? {
      if v2.Branch? {
        return Failure(InvalidReplacement(v1, v2));
      }
      return Success(v2);
    } else {
      if !v2.Branch? {
        return Failure(InvalidReplacement(v1, v2));
      }
      var merged := Merge(v1.children, v2.children);
      if merged.Failure? {
        return Failure(merged.error);
      }
      return Success(Branch(merged.value));
    }
  }

  // =====================================================================
  // segmentedGet
  // =====================================================================

  /** Maps.throwIfNotFound: nothing when the key is present, else the NotFound error. */
  function ThrowIfNotFound(m: map<string, Node>, key: string): (r: Option<MapError>)
    ensures r.None? <==> key in m
    ensures r.Some? ==> r.value.NotFound? && r.value.key == key && r.value.searched == m
  {
    if key !in m then Some(NotFound(key, m)) else None
  }

  /**
   * Maps.segmentedGet(nested, segments): the tree itself for no segments,
   * else the value reached by following the segments.
   */
  function SegmentedGet(nested: map<string, Node>, segments: seq<string>): (r: Result<Node, MapError>)
    ensures r.Failure? ==> r.error.NotFound? || r.error.CastFailure?
    decreases |segments|
  {
    if |segments| == 0 then Success(Branch(nested))
    else match ThrowIfNotFound(nested, segments[0])
      case Some(e) => Failure(e)
      case None =>
        if |segments| == 1 then Success(nested[segments[0]])
        else match nested[segments[0]]
          case Scalar(s) => Failure(CastFailure(s))
          case Branch(c) => SegmentedGet(c, segments[1..])
  }

  /** segmentedGet with a segment list that may be null: null resolves to the tree itself. */
  function SegmentedGetOrRoot(nested: map<string, Node>, segments: Option<seq<string>>): (r: Result<Node, MapError>)
    ensures segments.None? ==> r == Success(Branch(nested))
    ensures segments.Some? ==> r == SegmentedGet(nested, segments.value)
  {
    match segments
    case None => Success(Branch(nested))
    case Some(s) => SegmentedGet(nested, s)
  }

  /** Maps.convert(String): the key trimmed, then split on '.'. */
  function ConvertKey(segmentedKey: string): (r: seq<string>)
    ensures forall i :: 0 <= i < |r| ==> '.' !in r[i]
    ensures Trim(segmentedKey) == "" ==> r == [""]
    ensures '.' !in Trim(segmentedKey) && Trim(segmentedKey) != "" ==> r == [Trim(segmentedKey)]
  {
    SplitOnDot(Trim(segmentedKey));
    Split(Trim(segmentedKey), ".")
  }

  /** Splitting on '.': no piece holds a dot, and text without a dot is one piece. */
  lemma SplitOnDot(s: string)
    ensures forall i :: 0 <= i < |Split(s, ".")| ==> '.' !in Split(s, ".")[i]
    ensures '.' !in s && s != "" ==> Split(s, ".") == [s]
  {
    if s != "" {
      SplitAllPiecesExclude(s, '.');
      if '.' !in s {
        SplitAllWithoutDelimiter(s, '.');
      }
    }
  }

  /** Maps.segmentedGet(nested, String). */
  function SegmentedGetByKey(nested: map<string, Node>, segmentedKey: string): (r: Result<Node, MapError>)
    ensures r.Failure? ==> r.error.NotFound? || r.error.CastFailure?
    ensures '.' !in Trim(segmentedKey) && Trim(segmentedKey) != "" ==>
      r == if Trim(segmentedKey) in nested then Success(nested[Trim(segmentedKey)]) else Failure(NotFound(Trim(segmentedKey), nested))
  {
    SegmentedGet(nested, ConvertKey(segmentedKey))
  }

  // =====================================================================
  // convert(properties, keys), insert, insertTail, insertValue
  // =====================================================================

  /** Properties.getProperty: null (None) for a name without a value. */
  function GetProperty(props: map<string, string>, name: string): (r: Option<string>)
    ensures r.Some? <==> name in props
    ensures r.Some? ==> r.value == props[name]
  {
    if name in props then Some(props[name]) else None
  }

  /** Maps.insert(properties, name, map, segments). */
  function Insert(props: map<string, string>, name: string, m: map<string, Node>, segments: seq<string>): (r: Result<map<string, Node>, MapError>)
    ensures r == Failure(EmptySegments) <==> |segments| == 0
    ensures r.Failure? ==> r.error == EmptySegments || (r.error.SecondValue? && r.error.name == name) || (r.error.InsertionFailed? && r.error.name == name)
    ensures r.Success? ==> m.Keys <= r.value.Keys <= m.Keys + {segments[0]}
    ensures r.Success? ==> forall k :: k in m && k != segments[0] ==> r.value[k] == m[k]
    decreases |segments|, 1
  {
    if |segments| < 1 then Failure(EmptySegments)
    else if 1 < |segments| then InsertTail(props, name, m, segments[0], segments[1..])
    else InsertValue(name, m, segments[0], GetProperty(props, name))
  }

  /**
   * Maps.insertTail: a missing key gets a new map holding the tail; an
   * existing map takes the tail; any failure below an existing key,
   * including the cast of a string to a map, is wrapped.
   */
  function InsertTail(props: map<string, string>, name: string, m: map<string, Node>, key: string, tail: seq<string>): (r: Result<map<string, Node>, MapError>)
    ensures r.Success? ==> r.value.Keys == m.Keys + {key} && r.value[key].Branch?
    ensures r.Success? ==> forall k :: k in m && k != key ==> r.value[k] == m[k]
    ensures r.Failure? && key in m ==> r.error.InsertionFailed? && r.error.name == name && r.error.found == m[key]
    ensures r.Failure? && key !in m ==> (r.error == EmptySegments <==> |tail| == 0)
    ensures r.Failure? ==> r.error == EmptySegments || (r.error.SecondValue? && r.error.name == name) || (r.error.InsertionFailed? && r.error.name == name)
    decreases |tail|, 2
  {
    if key !in m then
      match Insert(props, name, map[], tail)
      case Success(sub) => Success(m[key := Branch(sub)])
      case Failure(e) => Failure(e)
    else
      match m[key]
      case Scalar(s) => Failure(InsertionFailed(name, m[key], CastFailure(s)))
      case Branch(c) =>
        match Insert(props, name, c, tail)
        case Success(sub) => Success(m[key := Branch(sub)])
        case Failure(e) => Failure(InsertionFailed(name, m[key], e))
  }

  /** Maps.insertValue: no value changes nothing; a value goes to a free key only. */
  function InsertValue(name: string, m: map<string, Node>, key: string, value: Option<string>): (r: Result<map<string, Node>, MapError>)
    ensures value.None? ==> r == Success(m)
    ensures value.Some? && key in m ==> r == Failure(SecondValue(name, m[key], value.value))
    ensures value.Some? && key !in m ==> r == Success(m[key := Scalar(value.value)])
  {
    match value
    case None => Success(m)
    case Some(v) => if key in m then Failure(SecondValue(name, m[key], v)) else Success(m[key := Scalar(v)])
  }

  /** Maps.insert(properties, name, map): the segments are the name split on '.', untrimmed. */
  function InsertName(props: map<string, string>, name: string, m: map<string, Node>): (r: Result<map<string, Node>, MapError>)
    ensures r == Failure(EmptySegments) <==> Split(name, ".") == []
    ensures r.Success? ==> m.Keys <= r.value.Keys
    ensures '.' !in name && name != "" ==> r == InsertValue(name, m, name, GetProperty(props, name))
  {
    SplitOnDot(name);
    Insert(props, name, m, Split(name, "."))
  }

  /** The tree convert(properties, keys) builds: the insertions folded over the keys in order. */
  function Build(props: map<string, string>, keys: seq<string>): (r: Result<map<string, Node>, MapError>)
    ensures |keys| == 0 ==> r == Success(map[])
    ensures r.Failure? ==> r.error == EmptySegments || r.error.SecondValue? || r.error.InsertionFailed?
    decreases |keys|
  {
    if |keys| == 0 then Success(map[])
    else match Build(props, keys[..|keys| - 1])
      case Failure(e) => Failure(e)
      case Success(m) => InsertName(props, keys[|keys| - 1], m)
  }

  /** Once a prefix of the keys fails, the whole build fails with the same error. */
  lemma {:induction false} BuildFailsAfterFailure(props: map<string, string>, keys: seq<string>, n: nat)
    requires n <= |keys| && Build(props, keys[..n]).Failure?
    ensures Build(props, keys) == Build(props, keys[..n])
    decreases |keys| - n
  {
    if n < |keys| {
      assert keys[..n + 1][..n] == keys[..n];
      BuildFailsAfterFailure(props, keys, n + 1);
    } else {
      assert keys[..n] == keys;
    }
  }

  /** One more key: the tree of the first i + 1 keys is the next key inserted into the tree of the first i. */
  lemma BuildNext(props: map<string, string>, keys: seq<string>, i: nat)
    requires i < |keys| && Build(props, keys[..i]).Success?
    ensures Build(props, keys[..i + 1]) == InsertName(props, keys[i], Build(props, keys[..i]).value)
  {
    assert keys[..i + 1][..i] == keys[..i];
  }

  /** Maps.convert(properties, keys): starts from an empty map and inserts every key in turn. */
  method Convert(props: map<string, string>, keys: seq<string>) returns (r: Result<map<string, Node>, MapError>)
    ensures r == Build(props, keys)
  {
    var tree: map<string, Node> := map[];
    var i := 0;
    while i < |keys|
      invariant 0 <= i <= |keys|
      invariant Build(props, keys[..i]) == Success(tree)
    {
      BuildNext(props, keys, i);
      var step := InsertName(props, keys[i], tree);
      if step.Failure? {
        BuildFailsAfterFailure(props, keys, i + 1);
        return Failure(step.error);
      }
      tree := step.value;
      i := i + 1;
    }
    assert keys[..i] == keys;
    return Success(tree);
  }

  // =====================================================================
  // Containment: every entry of one tree is in another
  // =====================================================================

  /** Every entry of `small` is in `big`: the same string, or a map containing the smaller map. */
  ghost predicate Contains(big: map<string, Node>, small: map<string, Node>)
    decreases Branch(small), 0
  {
    forall k :: k in small ==> k in big && NodeContains(big[k], small[k])
  }

  ghost predicate NodeContains(b: Node, s: Node)
    decreases s, 1
  {
    match s
    case Scalar(_) => b == s
    case Branch(sc) => b.Branch? && Contains(b.children, sc)
  }

  lemma {:induction false} NodeContainsReflexive(n: Node)
    ensures NodeContains(n, n)
    decreases n
  {
    match n
    case Scalar(_) =>
    case Branch(c) =>
      forall k | k in c ensures NodeContains(c[k], c[k]) {
        NodeContainsReflexive(c[k]);
      }
  }

  lemma ContainsReflexive(m: map<string, Node>)
    ensures Contains(m, m)
  {
    NodeContainsReflexive(Branch(m));
  }

  /** Whatever a path reaches in the smaller tree, it reaches, at least as large, in the larger one. */
  lemma {:induction false} ContainsPreservesGet(big: map<string, Node>, small: map<string, Node>, path: seq<string>)
    requires Contains(big, small) && SegmentedGet(small, path).Success?
    ensures SegmentedGet(big, path).Success?
    ensures NodeContains(SegmentedGet(big, path).value, SegmentedGet(small, path).value)
    decreases |path|
  {
    if |path| >= 2 {
      var k := path[0];
      ContainsPreservesGet(big[k].children, small[k].children, path[1..]);
    }
  }

  // =====================================================================
  // Properties of segmentedGet
  // =====================================================================

  /** Resolving a longer path continues from the map the prefix reaches. */
  lemma {:induction false} SegmentedGetAppend(nested: map<string, Node>, p: seq<string>, q: seq<string>, c: map<string, Node>)
    requires SegmentedGet(nested, p) == Success(Branch(c))
    ensures SegmentedGet(nested, p + q) == SegmentedGet(c, q)
    decreases |p|
  {
    if |p| == 0 {
      assert p + q == q;
    } else if |p| == 1 {
      if |q| > 0 {
        assert (p + q)[1..] == q;
      } else {
        assert p + q == p;
      }
    } else {
      assert (p + q)[1..] == p[1..] + q;
      SegmentedGetAppend(nested[p[0]].children, p[1..], q, c);
    }
  }

  /** A segment missing from the map reached so far fails with NotFound naming it and that map. */
  lemma SegmentedGetMissing(nested: map<string, Node>, p: seq<string>, c: map<string, Node>, key: string, q: seq<string>)
    requires SegmentedGet(nested, p) == Success(Branch(c)) && key !in c
    ensures SegmentedGet(nested, p + [key] + q) == Failure(NotFound(key, c))
  {
    assert p + [key] + q == p + ([key] + q);
    SegmentedGetAppend(nested, p, [key] + q, c);
  }

  /** Going on past a string fails with a cast failure, not with NotFound. */
  lemma {:induction false} SegmentedGetPastScalar(nested: map<string, Node>, p: seq<string>, s: string, q: seq<string>)
    requires SegmentedGet(nested, p) == Success(Scalar(s)) && |q| > 0
    ensures SegmentedGet(nested, p + q) == Failure(CastFailure(s))
    decreases |p|
  {
    assert |p| > 0;
    if |p| == 1 {
    } else {
      assert (p + q)[1..] == p[1..] + q;
      SegmentedGetPastScalar(nested[p[0]].children, p[1..], s, q);
    }
  }

  /** Maps.convert(String) trims the key before splitting it, where insert does not. */
  lemma ConvertKeyTrims()
    ensures ConvertKey(" a") == ["a"]
    ensures Split(" a", ".") == [" a"]
  {
    assert TrimStart(" a") == "a";
    assert TrimEnd("a") == "a";
    assert SplitAll("a", ".") == ["a"];
    assert SplitAll(" a", ".") == [" a"];
  }

  // =====================================================================
  // Properties of insert and convert
  // =====================================================================

  /** The error below all the wrapping RuntimeExceptions. */
  function RootCause(e: MapError): MapError {
    if e.InsertionFailed? then RootCause(e.cause) else e
  }

  /** A successful insertion only adds: every entry of the old tree is in the new one. */
  lemma {:induction false} InsertExtends(props: map<string, string>, name: string, m: map<string, Node>, segments: seq<string>)
    requires Insert(props, name, m, segments).Success?
    ensures Contains(Insert(props, name, m, segments).value, m)
    decreases |segments|
  {
    ContainsReflexive(m);
    if |segments| > 1 {
      var key := segments[0];
      if key in m {
        var c := m[key].children;
        InsertExtends(props, name, c, segments[1..]);
      }
    }
  }

  /** A present value ends up as the string at the end of its segments. */
  lemma {:induction false} InsertPlacesValue(props: map<string, string>, name: string, m: map<string, Node>, segments: seq<string>)
    requires name in props && Insert(props, name, m, segments).Success?
    ensures SegmentedGet(Insert(props, name, m, segments).value, segments) == Success(Scalar(props[name]))
    decreases |segments|
  {
    if |segments| > 1 {
      var key := segments[0];
      if key in m {
        InsertPlacesValue(props, name, m[key].children, segments[1..]);
      } else {
        InsertPlacesValue(props, name, map[], segments[1..]);
      }
    }
  }

  /** Every proper prefix of the segments leads to a map afterwards, whether or not there is a value. */
  lemma {:induction false} InsertCreatesPath(props: map<string, string>, name: string, m: map<string, Node>, segments: seq<string>, j: nat)
    requires Insert(props, name, m, segments).Success? && j < |segments|
    ensures SegmentedGet(Insert(props, name, m, segments).value, segments[..j]).Success?
    ensures SegmentedGet(Insert(props, name, m, segments).value, segments[..j]).value.Branch?
    decreases |segments|
  {
    if j > 1 {
      var key := segments[0];
      assert segments[..j][1..] == segments[1..][..j - 1];
      if key in m {
        InsertCreatesPath(props, name, m[key].children, segments[1..], j - 1);
      } else {
        InsertCreatesPath(props, name, map[], segments[1..], j - 1);
      }
    }
  }

  /** A name without a value adds maps but no string: every string in the new tree was there before. */
  lemma {:induction false} InsertAbsentAddsNoLeaf(props: map<string, string>, name: string, m: map<string, Node>, segments: seq<string>, path: seq<string>, s: string)
    requires name !in props && Insert(props, name, m, segments).Success?
    requires SegmentedGet(Insert(props, name, m, segments).value, path) == Success(Scalar(s))
    ensures SegmentedGet(m, path) == Success(Scalar(s))
    decreases |segments|
  {
    if |segments| > 1 && path[0] == segments[0] && |path| > 1 {
      var key := segments[0];
      if key in m {
        InsertAbsentAddsNoLeaf(props, name, m[key].children, segments[1..], path[1..], s);
      } else {
        InsertAbsentAddsNoLeaf(props, name, map[], segments[1..], path[1..], s);
      }
    }
  }

  /** A present value whose address already holds anything is rejected as a second value. */
  lemma {:induction false} InsertRejectsOccupied(props: map<string, string>, name: string, m: map<string, Node>, segments: seq<string>)
    requires name in props && |segments| > 0 && SegmentedGet(m, segments).Success?
    ensures Insert(props, name, m, segments).Failure?
    ensures RootCause(Insert(props, name, m, segments).error) == SecondValue(name, SegmentedGet(m, segments).value, props[name])
    decreases |segments|
  {
    if |segments| > 1 {
      InsertRejectsOccupied(props, name, m[segments[0]].children, segments[1..]);
    }
  }

  /** Extending a name past an existing string fails with a wrapped cast failure, value or no value. */
  lemma {:induction false} InsertRejectsPastScalar(props: map<string, string>, name: string, m: map<string, Node>, segments: seq<string>, j: nat, s: string)
    requires 0 < j < |segments| && SegmentedGet(m, segments[..j]) == Success(Scalar(s))
    ensures Insert(props, name, m, segments).Failure?
    ensures Insert(props, name, m, segments).error.InsertionFailed?
    ensures RootCause(Insert(props, name, m, segments).error) == CastFailure(s)
    decreases |segments|
  {
    if j > 1 {
      assert segments[..j][1..] == segments[1..][..j - 1];
      InsertRejectsPastScalar(props, name, m[segments[0]].children, segments[1..], j - 1, s);
    }
  }

  /** A name that splits into no segments, such as ".", is rejected. */
  lemma InsertNameRejectsDots(props: map<string, string>, name: string, m: map<string, Node>)
    requires name != "" && forall i :: 0 <= i < |name| ==> name[i] == '.'
    ensures InsertName(props, name, m) == Failure(EmptySegments)
  {
    SplitEmptyIffOnlyDelimiter(name, '.');
  }

  /** Inserting into an empty map succeeds for any non-empty segment list. */
  lemma {:induction false} InsertIntoEmpty(props: map<string, string>, name: string, segments: seq<string>)
    requires |segments| > 0
    ensures Insert(props, name, map[], segments).Success?
    decreases |segments|
  {
    if |segments| > 1 {
      InsertIntoEmpty(props, name, segments[1..]);
    }
  }

  /**
   * Exactly when insert succeeds: there is at least one segment, no proper
   * prefix of the segments reaches a string, and a name with a value finds
   * nothing at its address.
   */
  lemma {:induction false} InsertSucceedsIff(props: map<string, string>, name: string, m: map<string, Node>, segments: seq<string>)
    ensures Insert(props, name, m, segments).Success? <==>
      |segments| > 0
      && (forall j | 0 < j < |segments| :: !(SegmentedGet(m, segments[..j]).Success? && SegmentedGet(m, segments[..j]).value.Scalar?))
      && (name in props ==> SegmentedGet(m, segments).Failure?)
    decreases |segments|
  {
    if |segments| > 1 {
      var key := segments[0];
      var tail := segments[1..];
      assert segments[..1] == [key];
      if key !in m {
        InsertIntoEmpty(props, name, tail);
        forall j | 0 < j <= |segments|
          ensures SegmentedGet(m, segments[..j]).Failure?
        {
          assert segments[..j][0] == key;
        }
        assert segments[..|segments|] == segments;
      } else if m[key].Branch? {
        var c := m[key].children;
        InsertSucceedsIff(props, name, c, tail);
        forall j | 1 < j <= |segments|
          ensures SegmentedGet(m, segments[..j]) == SegmentedGet(c, tail[..j - 1])
        {
          assert segments[..j][0] == key && segments[..j][1..] == tail[..j - 1];
        }
        assert segments[..|segments|] == segments && tail[..|tail|] == tail;
        assert (forall j | 0 < j < |tail| :: !(SegmentedGet(c, tail[..j]).Success? && SegmentedGet(c, tail[..j]).value.Scalar?))
          <==> (forall j | 0 < j < |segments| :: !(SegmentedGet(m, segments[..j]).Success? && SegmentedGet(m, segments[..j]).value.Scalar?))
        by {
          forall j | 0 < j < |tail|
            ensures SegmentedGet(c, tail[..j]) == SegmentedGet(m, segments[..j + 1])
          {
          }
        }
      }
    }
  }

  /**
   * A string reached after a successful insertion was there before, or is the
   * inserted value at the end of the inserted segments.
   */
  lemma {:induction false} InsertNewLeaf(props: map<string, string>, name: string, m: map<string, Node>, segments: seq<string>, path: seq<string>, s: string)
    requires Insert(props, name, m, segments).Success?
    requires SegmentedGet(Insert(props, name, m, segments).value, path) == Success(Scalar(s))
    ensures SegmentedGet(m, path) == Success(Scalar(s)) || (path == segments && name in props && s == props[name])
    decreases |segments|
  {
    if |segments| > 1 && path[0] == segments[0] && |path| > 1 {
      var key := segments[0];
      assert path == [key] + path[1..] && segments == [key] + segments[1..];
      if key in m {
        InsertNewLeaf(props, name, m[key].children, segments[1..], path[1..], s);
      } else {
        InsertNewLeaf(props, name, map[], segments[1..], path[1..], s);
      }
    } else if |segments| == 1 && |path| == 1 && path[0] == segments[0] {
      assert path == segments;
    }
  }

  /**
   * A non-empty path that resolves after a successful insertion resolved
   * before, or is a prefix of the inserted segments.
   */
  lemma {:induction false} InsertNewPath(props: map<string, string>, name: string, m: map<string, Node>, segments: seq<string>, path: seq<string>)
    requires Insert(props, name, m, segments).Success? && |path| > 0
    requires SegmentedGet(Insert(props, name, m, segments).value, path).Success?
    ensures SegmentedGet(m, path).Success? || path <= segments
    decreases |segments|
  {
    if path[0] == segments[0] {
      if |path| == 1 {
        assert path == segments[..1];
      } else if |segments| > 1 {
        var key := segments[0];
        if key in m {
          InsertNewPath(props, name, m[key].children, segments[1..], path[1..]);
        } else {
          InsertNewPath(props, name, map[], segments[1..], path[1..]);
        }
        assert path == [key] + path[1..] && segments == [key] + segments[1..];
      }
    }
  }

  /** A failure other than an empty segment list names one of the keys. */
  lemma {:induction false} BuildErrorNamesKey(props: map<string, string>, keys: seq<string>)
    requires Build(props, keys).Failure? && !Build(props, keys).error.EmptySegments?
    ensures exists i :: 0 <= i < |keys| && Build(props, keys).error.name == keys[i]
    decreases |keys|
  {
    var n := |keys| - 1;
    var prefix := keys[..n];
    if Build(props, prefix).Failure? {
      BuildErrorNamesKey(props, prefix);
      var i :| 0 <= i < n && Build(props, prefix).error.name == prefix[i];
      assert keys[i] == prefix[i];
    }
  }

  /** When convert succeeds, every key split into at least one segment. */
  lemma {:induction false} BuildNeedsSegments(props: map<string, string>, keys: seq<string>, i: nat)
    requires Build(props, keys).Success? && i < |keys|
    ensures Split(keys[i], ".") != []
    decreases |keys|
  {
    var n := |keys| - 1;
    if i < n {
      assert keys[..n][i] == keys[i];
      BuildNeedsSegments(props, keys[..n], i);
    }
  }

  /** Each key convert inserts only adds to the tree the keys before it built. */
  lemma BuildStepExtends(props: map<string, string>, keys: seq<string>)
    requires |keys| > 0 && Build(props, keys).Success?
    ensures Build(props, keys[..|keys| - 1]).Success?
    ensures Contains(Build(props, keys).value, Build(props, keys[..|keys| - 1]).value)
  {
    var n := |keys| - 1;
    InsertExtends(props, keys[n], Build(props, keys[..n]).value, Split(keys[n], "."));
  }

  /** convert places every key with a value at the leaf its segments name, untrimmed. */
  lemma {:induction false} BuildPlacesValue(props: map<string, string>, keys: seq<string>, i: nat)
    requires Build(props, keys).Success? && i < |keys| && keys[i] in props
    ensures SegmentedGet(Build(props, keys).value, Split(keys[i], ".")) == Success(Scalar(props[keys[i]]))
    decreases |keys|
  {
    var n := |keys| - 1;
    var prefix := keys[..n];
    var m := Build(props, prefix).value;
    if i == n {
      InsertPlacesValue(props, keys[i], m, Split(keys[i], "."));
    } else {
      assert prefix[i] == keys[i];
      BuildPlacesValue(props, prefix, i);
      BuildStepExtends(props, keys);
      ContainsPreservesGet(Build(props, keys).value, m, Split(keys[i], "."));
    }
  }

  /** convert creates every intermediate map of every key, with or without a value. */
  lemma {:induction false} BuildCreatesPath(props: map<string, string>, keys: seq<string>, i: nat, j: nat)
    requires Build(props, keys).Success? && i < |keys| && j < |Split(keys[i], ".")|
    ensures SegmentedGet(Build(props, keys).value, Split(keys[i], ".")[..j]).Success?
    ensures SegmentedGet(Build(props, keys).value, Split(keys[i], ".")[..j]).value.Branch?
    decreases |keys|
  {
    var n := |keys| - 1;
    var prefix := keys[..n];
    var m := Build(props, prefix).value;
    if i == n {
      InsertCreatesPath(props, keys[i], m, Split(keys[i], "."), j);
    } else {
      assert prefix[i] == keys[i];
      BuildCreatesPath(props, prefix, i, j);
      BuildStepExtends(props, keys);
      ContainsPreservesGet(Build(props, keys).value, m, Split(keys[i], ".")[..j]);
    }
  }

  /** A trimmed key resolves through segmentedGet(String) to the value convert placed for it. */
  lemma BuildResolvesByKey(props: map<string, string>, keys: seq<string>, i: nat)
    requires Build(props, keys).Success? && i < |keys| && keys[i] in props && Trim(keys[i]) == keys[i]
    ensures SegmentedGetByKey(Build(props, keys).value, keys[i]) == Success(Scalar(props[keys[i]]))
  {
    BuildPlacesValue(props, keys, i);
  }

  /** Every string in the tree convert built is the value of one of the keys, at that key's segments. */
  lemma {:induction false} BuildLeafIsKeyValue(props: map<string, string>, keys: seq<string>, path: seq<string>, s: string)
    requires Build(props, keys).Success? && SegmentedGet(Build(props, keys).value, path) == Success(Scalar(s))
    ensures exists i :: 0 <= i < |keys| && keys[i] in props && path == Split(keys[i], ".") && s == props[keys[i]]
    decreases |keys|
  {
    var n := |keys| - 1;
    var prefix := keys[..n];
    var m := Build(props, prefix).value;
    InsertNewLeaf(props, keys[n], m, Split(keys[n], "."), path, s);
    if SegmentedGet(m, path) == Success(Scalar(s)) {
      BuildLeafIsKeyValue(props, prefix, path, s);
      var i :| 0 <= i < n && prefix[i] in props && path == Split(prefix[i], ".") && s == props[prefix[i]];
      assert keys[i] == prefix[i];
    }
  }

  /** Every non-empty path that resolves in the tree convert built is a prefix of some key's segments. */
  lemma {:induction false} BuildPathIsKeyPrefix(props: map<string, string>, keys: seq<string>, path: seq<string>)
    requires Build(props, keys).Success? && |path| > 0 && SegmentedGet(Build(props, keys).value, path).Success?
    ensures exists i :: 0 <= i < |keys| && path <= Split(keys[i], ".")
    decreases |keys|
  {
    var n := |keys| - 1;
    var prefix := keys[..n];
    var m := Build(props, prefix).value;
    InsertNewPath(props, keys[n], m, Split(keys[n], "."), path);
    if SegmentedGet(m, path).Success? {
      BuildPathIsKeyPrefix(props, prefix, path);
      var i :| 0 <= i < n && path <= Split(prefix[i], ".");
      assert keys[i] == prefix[i];
    }
  }

  /**
   * Keys convert can always insert: each splits into at least one segment, and
   * no key's segments are a prefix of, or equal to, another key's.
   */
  predicate IndependentKeys(keys: seq<string>) {
    (forall k :: 0 <= k < |keys| ==> |Split(keys[k], ".")| > 0)
    && (forall i, k :: 0 <= i < |keys| && 0 <= k < |keys| && i != k ==> !(Split(keys[i], ".") <= Split(keys[k], ".")))
  }

  /** convert succeeds on independent keys, whatever values the properties hold. */
  lemma {:induction false} BuildSucceeds(props: map<string, string>, keys: seq<string>)
    requires IndependentKeys(keys)
    ensures Build(props, keys).Success?
    decreases |keys|
  {
    if |keys| > 0 {
      var prefix := keys[..|keys| - 1];
      assert forall i :: 0 <= i < |prefix| ==> prefix[i] == keys[i];
      BuildSucceeds(props, prefix);
      BuildStepSucceeds(props, keys);
    }
  }

  /** The last of independent keys inserts into the tree the keys before it built. */
  lemma BuildStepSucceeds(props: map<string, string>, keys: seq<string>)
    requires IndependentKeys(keys) && |keys| > 0 && Build(props, keys[..|keys| - 1]).Success?
    ensures InsertName(props, keys[|keys| - 1], Build(props, keys[..|keys| - 1]).value).Success?
  {
    var n := |keys| - 1;
    var prefix := keys[..n];
    var m := Build(props, prefix).value;
    var segments := Split(keys[n], ".");
    InsertSucceedsIff(props, keys[n], m, segments);
    forall j | 0 < j < |segments|
      ensures !(SegmentedGet(m, segments[..j]).Success? && SegmentedGet(m, segments[..j]).value.Scalar?)
    {
      if SegmentedGet(m, segments[..j]).Success? && SegmentedGet(m, segments[..j]).value.Scalar? {
        BuildLeafIsKeyValue(props, prefix, segments[..j], SegmentedGet(m, segments[..j]).value.text);
        assert false;
      }
    }
    if keys[n] in props && SegmentedGet(m, segments).Success? {
      BuildPathIsKeyPrefix(props, prefix, segments);
      assert false;
    }
  }


  // =====================================================================
  // Properties of merge
  // =====================================================================

  /** Merge keeps every key of both sides; a key of `existing` alone keeps its value. */
  lemma MergeUnion(a: map<string, Node>, b: map<string, Node>, k: string)
    requires MapsCompatible(a, b)
    ensures MergedMap(a, b).Keys == a.Keys + b.Keys
    ensures k in a && k !in b ==> MergedMap(a, b)[k] == a[k]
    ensures k !in a && k in b ==> MergedMap(a, b)[k] == b[k]
  {
  }

  /** Merging with an empty map, on either side, gives the other map back. */
  lemma MergeWithEmpty(t: map<string, Node>)
    ensures MapsCompatible(t, map[]) && MergedMap(t, map[]) == t
    ensures MapsCompatible(map[], t) && MergedMap(map[], t) == t
  {
  }

  lemma {:induction false} OverwriteSelf(n: Node)
    ensures Compatible(n, n) && Overwritten(n, n) == n
    decreases n
  {
    if n.Branch? {
      forall k | k in n.children ensures Compatible(n.children[k], n.children[k]) {
        OverwriteSelf(n.children[k]);
      }
      assert MergedMap(n.children, n.children) == n.children by {
        forall k | k in n.children ensures Overwritten(n.children[k], n.children[k]) == n.children[k] {
          OverwriteSelf(n.children[k]);
        }
      }
    }
  }

  /** Merging a tree with itself gives the tree back. */
  lemma MergeSelf(t: map<string, Node>)
    ensures MapsCompatible(t, t) && MergedMap(t, t) == t
  {
    OverwriteSelf(Branch(t));
  }

  lemma {:induction false} OverwriteContainsOverlay(v1: Node, v2: Node)
    requires Compatible(v1, v2)
    ensures NodeContains(Overwritten(v1, v2), v2)
    decreases v2
  {
    if v2.Branch? {
      var a, b := v1.children, v2.children;
      forall k | k in b ensures k in MergedMap(a, b) && NodeContains(MergedMap(a, b)[k], b[k]) {
        if k in a {
          OverwriteContainsOverlay(a[k], b[k]);
        } else {
          NodeContainsReflexive(b[k]);
        }
      }
    }
  }

  /** The merged tree contains every entry of the overlay. */
  lemma MergeContainsOverlay(a: map<string, Node>, b: map<string, Node>)
    requires MapsCompatible(a, b)
    ensures Contains(MergedMap(a, b), b)
  {
    OverwriteContainsOverlay(Branch(a), Branch(b));
  }

  /** Two values that never disagree: equal strings, or maps agreeing on their shared keys. */
  ghost predicate Agree(v1: Node, v2: Node)
    decreases v2, 1
  {
    match v2
    case Scalar(s) => v1 == v2
    case Branch(c2) => v1.Branch? && MapsAgree(v1.children, c2)
  }

  ghost predicate MapsAgree(a: map<string, Node>, b: map<string, Node>)
    decreases Branch(b), 0
  {
    forall k :: k in a && k in b ==> Agree(a[k], b[k])
  }

  lemma {:induction false} OverwriteContainsBase(v1: Node, v2: Node)
    requires Agree(v1, v2)
    ensures Compatible(v1, v2) && NodeContains(Overwritten(v1, v2), v1)
    decreases v2
  {
    if v2.Scalar? {
      NodeContainsReflexive(v1);
    } else {
      var a, b := v1.children, v2.children;
      forall k | k in a && k in b ensures Compatible(a[k], b[k]) && NodeContains(Overwritten(a[k], b[k]), a[k]) {
        OverwriteContainsBase(a[k], b[k]);
      }
      forall k | k in a ensures k in MergedMap(a, b) && NodeContains(MergedMap(a, b)[k], a[k]) {
        if k !in b {
          NodeContainsReflexive(a[k]);
        }
      }
    }
  }

  /** When the two sides never disagree, the merged tree contains every entry of both. */
  lemma MergeContainsBoth(a: map<string, Node>, b: map<string, Node>)
    requires MapsAgree(a, b)
    ensures MapsCompatible(a, b)
    ensures Contains(MergedMap(a, b), a) && Contains(MergedMap(a, b), b)
  {
    OverwriteContainsBase(Branch(a), Branch(b));
    MergeContainsOverlay(a, b);
  }

  /** A string the overlay holds at some path is what the merged tree holds there. */
  lemma OverlayScalarWins(a: map<string, Node>, b: map<string, Node>, path: seq<string>, s: string)
    requires MapsCompatible(a, b) && SegmentedGet(b, path) == Success(Scalar(s))
    ensures SegmentedGet(MergedMap(a, b), path) == Success(Scalar(s))
  {
    MergeContainsOverlay(a, b);
    ContainsPreservesGet(MergedMap(a, b), b, path);
  }

  lemma {:induction false} OverwriteAssociative(x: Node, y: Node, z: Node)
    requires Compatible(x, y) && Compatible(y, z) && Compatible(x, z)
    ensures Compatible(Overwritten(x, y), z) && Compatible(x, Overwritten(y, z))
    ensures Overwritten(Overwritten(x, y), z) == Overwritten(x, Overwritten(y, z))
    decreases z, 1
  {
    if z.Branch? {
      MergeAssociative(x.children, y.children, z.children);
    }
  }

  /** Without conflicts, merging is associative. */
  lemma {:induction false} MergeAssociative(a: map<string, Node>, b: map<string, Node>, c: map<string, Node>)
    requires MapsCompatible(a, b) && MapsCompatible(b, c) && MapsCompatible(a, c)
    ensures MapsCompatible(MergedMap(a, b), c) && MapsCompatible(a, MergedMap(b, c))
    ensures MergedMap(MergedMap(a, b), c) == MergedMap(a, MergedMap(b, c))
    decreases Branch(c), 0
  {
    forall k | k in a && k in b && k in c
      ensures Compatible(Overwritten(a[k], b[k]), c[k]) && Compatible(a[k], Overwritten(b[k], c[k]))
      ensures Overwritten(Overwritten(a[k], b[k]), c[k]) == Overwritten(a[k], Overwritten(b[k], c[k]))
    {
      OverwriteAssociative(a[k], b[k], c[k]);
    }
    MergedMapsAssociate(a, b, c);
  }

  /** Merging associates once the values under the keys all three maps share do. */
  lemma MergedMapsAssociate(a: map<string, Node>, b: map<string, Node>, c: map<string, Node>)
    requires MapsCompatible(a, b) && MapsCompatible(b, c) && MapsCompatible(a, c)
    requires forall k :: k in a && k in b && k in c ==>
      Compatible(Overwritten(a[k], b[k]), c[k]) && Compatible(a[k], Overwritten(b[k], c[k])) &&
      Overwritten(Overwritten(a[k], b[k]), c[k]) == Overwritten(a[k], Overwritten(b[k], c[k]))
    ensures MapsCompatible(MergedMap(a, b), c) && MapsCompatible(a, MergedMap(b, c))
    ensures MergedMap(MergedMap(a, b), c) == MergedMap(a, MergedMap(b, c))
  {
    var ab, bc := MergedMap(a, b), MergedMap(b, c);
    forall k | k in ab && k in c
      ensures Compatible(ab[k], c[k])
    {
      if k in a && k in b {
        assert ab[k] == Overwritten(a[k], b[k]);
      } else if k in b {
        assert ab[k] == b[k];
      } else {
        assert ab[k] == a[k];
      }
    }
    forall k | k in a && k in bc
      ensures Compatible(a[k], bc[k])
    {
      if k in b && k in c {
        assert bc[k] == Overwritten(b[k], c[k]);
      } else if k in c {
        assert bc[k] == c[k];
      } else {
        assert bc[k] == b[k];
      }
    }
    MergedMapsAssociateValues(a, b, c);
  }

  /** The two ways of merging three compatible maps hold the same value under every key. */
  lemma MergedMapsAssociateValues(a: map<string, Node>, b: map<string, Node>, c: map<string, Node>)
    requires MapsCompatible(a, b) && MapsCompatible(b, c) && MapsCompatible(a, c)
    requires MapsCompatible(MergedMap(a, b), c) && MapsCompatible(a, MergedMap(b, c))
    requires forall k :: k in a && k in b && k in c ==>
      Overwritten(Overwritten(a[k], b[k]), c[k]) == Overwritten(a[k], Overwritten(b[k], c[k]))
    ensures MergedMap(MergedMap(a, b), c) == MergedMap(a, MergedMap(b, c))
  {
    var left, right := MergedMap(MergedMap(a, b), c), MergedMap(a, MergedMap(b, c));
    forall k | k in left
      ensures k in right && left[k] == right[k]
    {
      MergedMapsAssociateAt(a, b, c, k);
    }
    forall k | k in right
      ensures k in left
    {
      MergedMapsAssociateAt(a, b, c, k);
    }
  }

  /** The two ways of merging three compatible maps agree under one key. */
  lemma MergedMapsAssociateAt(a: map<string, Node>, b: map<string, Node>, c: map<string, Node>, k: string)
    requires MapsCompatible(a, b) && MapsCompatible(b, c) && MapsCompatible(a, c)
    requires MapsCompatible(MergedMap(a, b), c) && MapsCompatible(a, MergedMap(b, c))
    requires k in a && k in b && k in c ==>
      Overwritten(Overwritten(a[k], b[k]), c[k]) == Overwritten(a[k], Overwritten(b[k], c[k]))
    requires k in a || k in b || k in c
    ensures k in MergedMap(MergedMap(a, b), c) && k in MergedMap(a, MergedMap(b, c))
    ensures MergedMap(MergedMap(a, b), c)[k] == MergedMap(a, MergedMap(b, c))[k]
  {
    var ab, bc := MergedMap(a, b), MergedMap(b, c);
    if k in c && k in b {
      assert bc[k] == Overwritten(b[k], c[k]);
      if k in a {
        assert ab[k] == Overwritten(a[k], b[k]);
      }
    } else if k in c {
      assert bc[k] == c[k];
    } else if k in b {
      assert bc[k] == b[k];
    }
  }

  /** The merge test: two maps sharing the key "c" whose values are maps. */
  lemma MergeOfNonConflictingMaps()
    ensures var left := map["a" := Scalar("1"), "b" := Scalar("2"), "c" := Branch(map["ca" := Scalar("1")])];
            var right := map["c" := Branch(map["da" := Scalar("1")])];
            MapsCompatible(left, right) && Contains(MergedMap(left, right), left) && Contains(MergedMap(left, right), right)
  {
    var left := map["a" := Scalar("1"), "b" := Scalar("2"), "c" := Branch(map["ca" := Scalar("1")])];
    var right := map["c" := Branch(map["da" := Scalar("1")])];
    assert MapsAgree(map["ca" := Scalar("1")], map["da" := Scalar("1")]);
    assert Agree(left["c"], right["c"]);
    assert MapsAgree(left, right);
    MergeContainsBoth(left, right);
  }

  /** A string against a map, in either order, cannot be merged. */
  lemma MergeOfScalarAndMapFails()
    ensures !MapsCompatible(map["a" := Scalar("1")], map["a" := Branch(map["b" := Scalar("2")])])
    ensures !MapsCompatible(map["a" := Branch(map["b" := Scalar("2")])], map["a" := Scalar("1")])
  {
    var s, b := map["a" := Scalar("1")], map["a" := Branch(map["b" := Scalar("2")])];
    assert !Compatible(s["a"], b["a"]);
    assert !Compatible(b["a"], s["a"]);
  }

  /** Two strings at the same key: the overlay's wins. */
  lemma MergeOverlayPrecedence()
    ensures MergedMap(map["x" := Scalar("1")], map["x" := Scalar("2")]) == map["x" := Scalar("2")]
  {
    var r := MergedMap(map["x" := Scalar("1")], map["x" := Scalar("2")]);
    assert r.Keys == {"x"};
  }

  // =====================================================================
  // Worked examples of convert
  // =====================================================================

  lemma SplitExamples()
    ensures Split("a.b", ".") == ["a", "b"]
    ensures Split("a.b.c", ".") == ["a", "b", "c"]
  {
    assert SplitAll("c", ".") == ["c"];
    assert ".c"[1..] == "c" && ".c"[..1] == ".";
    assert SplitAll(".c", ".") == ["", "c"];
    assert "b.c"[1..] == ".c" && "b.c"[..1] == "b";
    var rest := SplitAll(".c", ".");
    assert SplitAll("b.c", ".") == [['b'] + rest[0]] + rest[1..];
    assert rest[1..] == ["c"] && ['b'] + rest[0] == "b";
    assert SplitAll("b.c", ".") == ["b", "c"];
    assert ".b.c"[1..] == "b.c" && ".b.c"[..1] == ".";
    assert SplitAll(".b.c", ".") == ["", "b", "c"];
    assert "a.b.c"[1..] == ".b.c" && "a.b.c"[..1] == "a";
    rest := SplitAll(".b.c", ".");
    assert SplitAll("a.b.c", ".") == [['a'] + rest[0]] + rest[1..];
    assert rest[1..] == ["b", "c"] && ['a'] + rest[0] == "a";
    assert SplitAll("a.b.c", ".") == ["a", "b", "c"];
    assert SplitAll("b", ".") == ["b"];
    assert ".b"[1..] == "b" && ".b"[..1] == ".";
    assert SplitAll(".b", ".") == ["", "b"];
    assert "a.b"[1..] == ".b" && "a.b"[..1] == "a";
    assert SplitAll("a.b", ".") == ["a", "b"];
  }

  /** A key extending past another key's string value fails with a wrapped cast failure. */
  /** convert of the single key "a.b" with the value "1". */
  lemma BuildOfAB(props: map<string, string>)
    requires props == map["a.b" := "1", "a.b.c" := "2"]
    ensures Build(props, ["a.b"]) == Success(map["a" := Branch(map["b" := Scalar("1")])])
  {
    SplitExamples();
    assert ["a.b"][..0] == [];
  }

  lemma BuildRejectsExtendingAString()
    ensures var r := Build(map["a.b" := "1", "a.b.c" := "2"], ["a.b", "a.b.c"]);
            r.Failure? && r.error.InsertionFailed? && RootCause(r.error) == CastFailure("1")
  {
    var props := map["a.b" := "1", "a.b.c" := "2"];
    var keys := ["a.b", "a.b.c"];
    assert keys[..1] == ["a.b"];
    BuildOfAB(props);
    SplitExamples();
    var m := map["a" := Branch(map["b" := Scalar("1")])];
    var segments := ["a", "b", "c"];
    assert segments[..2] == ["a", "b"];
    InsertRejectsPastScalar(props, "a.b.c", m, segments, 2, "1");
  }

  /** The same key twice, with a value, fails as a second value. */
  lemma BuildRejectsDuplicateKey()
    ensures var r := Build(map["a.b" := "1"], ["a.b", "a.b"]);
            r.Failure? && RootCause(r.error) == SecondValue("a.b", Scalar("1"), "1")
  {
    var props := map["a.b" := "1"];
    var keys := ["a.b", "a.b"];
    SplitExamples();
    assert keys[..1] == ["a.b"] && keys[..1][..0] == [];
    var m := map["a" := Branch(map["b" := Scalar("1")])];
    assert Build(props, keys[..1]) == Success(m);
    InsertRejectsOccupied(props, "a.b", m, ["a", "b"]);
  }

  /** A key without a value leaves its intermediate maps, empty, and no leaf. */
  lemma BuildAbsentValueLeavesEmptyMaps()
    ensures Build(map[], ["a.b.c"]) == Success(map["a" := Branch(map["b" := Branch(map[])])])
    ensures SegmentedGet(Build(map[], ["a.b.c"]).value, ["a", "b"]) == Success(Branch(map[]))
    ensures SegmentedGet(Build(map[], ["a.b.c"]).value, ["a", "b", "c"]) == Failure(NotFound("c", map[]))
  {
    var keys := ["a.b.c"];
    SplitExamples();
    assert keys[..0] == [];
  }

  /** Building keeps a name's spaces, while segmentedGet(String) trims them away. */
  lemma BuildKeepsSpacesResolveTrims()
    ensures Build(map[" a" := "1"], [" a"]) == Success(map[" a" := Scalar("1")])
    ensures SegmentedGetByKey(map[" a" := Scalar("1")], " a") == Failure(NotFound("a", map[" a" := Scalar("1")]))
  {
    var keys := [" a"];
    ConvertKeyTrims();
    assert keys[..0] == [];
  }

  /** The NotFound message holds the key and the sorted rendering of the map searched. */
  lemma NotFoundMessage()
    ensures Message(NotFound("x", map["b" := Scalar("2"), "a" := Scalar("1")])) == Some("Not found: x [a=1\nb=2]")
  {
    FormatTwoEntries();
    assert "Not found: " + "x" + " [" + "a=1\nb=2" + "]" == "Not found: x [a=1\nb=2]";
  }

  /** Two entries are formatted in ascending key order, one per line. */
  lemma FormatTwoEntries()
    ensures FormatLines(map["b" := Scalar("2"), "a" := Scalar("1")]) == "a=1\nb=2"
  {
    var m := map["b" := Scalar("2"), "a" := Scalar("1")];
    var ks := SortedKeys(m.Keys);
    assert "a" in ks && "b" in ks;
    assert LexLe("a", "b") && !LexLe("b", "a");
    assert ks == ["a", "b"];
    assert m["a"] == Scalar("1") && m["b"] == Scalar("2");
    var es := Entries(m, ks);
    assert |es| == 2;
    assert es[0] == "a" + "=" + "1" == "a=1";
    assert es[1] == "b" + "=" + "2" == "b=2";
    assert es == ["a=1", "b=2"];
    assert Join(es, "\n") == "a=1\nb=2";
    assert FormatLines(m) == Format(m, "\n") == Join(es, "\n");
  }
}
