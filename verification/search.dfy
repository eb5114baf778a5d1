/** The brute-force inverse search (`find_tensor_configurations`).

    For every table entry that is not deprecated or removed, three fixed
    shape/stride patterns are enumerated over bounded ranges, each candidate
    is fed to `ggml_nbytes`, and the candidates whose byte count equals the
    target are kept, in enumeration order. */
module Search {
  import opened Wrappers
  import opened TypeTraits
  import opened NBytes

  datatype Shape = Shape1D | Shape2D | Shape3D

  /** One candidate: its shape tag, dimensions `ne` and strides `nb`. */
  datatype Config = Config(shape: Shape, ne: seq<int>, nb: seq<int>)

  /** The matches found for one type key. */
  datatype TypeMatches = TypeMatches(name: string, matches: seq<Config>)

  /** Per-axis cap of the 3D search, used as an exclusive range bound. */
  const Cap3D: int := 32

  function Config1D(d: int): Config {
    Config(Shape1D, [d, 1, 1, 1], [1, 1, 1, 1])
  }

  /** Row-major: the stride of axis 1 is the extent of axis 0. */
  function Config2D(d1: int, d2: int): Config {
    Config(Shape2D, [d1, d2, 1, 1], [1, d1, 1, 1])
  }

  function Config3D(d1: int, d2: int, d3: int): Config {
    Config(Shape3D, [d1, d2, d3, 1], [1, d1, d1 * d2, 1])
  }

  predicate Is1D(c: Config) {
    |c.ne| == 4 && c == Config1D(c.ne[0])
  }

  predicate Is2D(c: Config) {
    |c.ne| == 4 && c == Config2D(c.ne[0], c.ne[1])
  }

  predicate Is3D(c: Config) {
    |c.ne| == 4 && c == Config3D(c.ne[0], c.ne[1], c.ne[2])
  }

  /** Largest value each 3D axis takes: `range(1, min(max_dim, 32))` stops
      one short of its bound. */
  function Bound3D(maxDim: int): int {
    (if maxDim < Cap3D then maxDim else Cap3D) - 1
  }

  /** Number of integers in `lo..hi`. */
  function Span(lo: int, hi: int): nat {
    if lo <= hi then hi - lo + 1 else 0
  }

  function Rank(s: Shape): int {
    match s
    case Shape1D => 1
    case Shape2D => 2
    case Shape3D => 3
  }

  /** Enumeration order: by shape (1D, 2D, 3D), then lexicographically by
      `ne[0]`, `ne[1]`, `ne[2]`, leftmost dimension most significant. */
  predicate Precedes(a: Config, b: Config) {
    && |a.ne| >= 3 && |b.ne| >= 3
    && (|| Rank(a.shape) < Rank(b.shape)
        || (&& a.shape == b.shape
            && (|| a.ne[0] < b.ne[0]
                || (a.ne[0] == b.ne[0] && a.ne[1] < b.ne[1])
                || (a.ne[0] == b.ne[0] && a.ne[1] == b.ne[1] && a.ne[2] < b.ne[2]))))
  }

  /** Strictly increasing in enumeration order (so also free of repeats). */
  predicate Sorted(s: seq<Config>) {
    forall i, j :: 0 <= i < j < |s| ==> Precedes(s[i], s[j])
  }

  lemma SortedConcat(a: seq<Config>, b: seq<Config>)
    requires Sorted(a) && Sorted(b)
    requires forall x, y :: x in a && y in b ==> Precedes(x, y)
    ensures Sorted(a + b)
  {
    forall i, j | 0 <= i < j < |a + b| ensures Precedes((a + b)[i], (a + b)[j]) {
      if j < |a| {
        assert (a + b)[i] == a[i] && (a + b)[j] == a[j];
      } else if i >= |a| {
        assert (a + b)[i] == b[i - |a|] && (a + b)[j] == b[j - |a|];
      } else {
        assert (a + b)[i] == a[i] && (a + b)[j] == b[j - |a|];
      }
    }
  }

  // ---------------------------------------------------------------------
  // Candidate enumeration, in the loop order of the source.
  // ---------------------------------------------------------------------

  /** 1D candidates `[d, 1, 1, 1] / [1, 1, 1, 1]` for `d` in `lo..hi`. */
  function Line1D(lo: int, hi: int): (r: seq<Config>)
    decreases hi - lo
    ensures |r| == Span(lo, hi)
    ensures forall c :: c in r <==> Is1D(c) && lo <= c.ne[0] <= hi
    ensures Sorted(r)
  {
    if lo > hi then []
    else
      var rest := Line1D(lo + 1, hi);
      SortedConcat([Config1D(lo)], rest);
      [Config1D(lo)] + rest
  }

  /** The 2D candidates of one outer dimension `d1`, `d2` in `lo..hi`. */
  function Row2D(d1: int, lo: int, hi: int): (r: seq<Config>)
    decreases hi - lo
    ensures |r| == Span(lo, hi)
    ensures forall c :: c in r <==> Is2D(c) && c.ne[0] == d1 && lo <= c.ne[1] <= hi
    ensures Sorted(r)
  {
    if lo > hi then []
    else
      var rest := Row2D(d1, lo + 1, hi);
      SortedConcat([Config2D(d1, lo)], rest);
      [Config2D(d1, lo)] + rest
  }

  /** `product(range(lo, hi+1), range(1, n+1))`: `d1` outermost. */
  function Grid2D(lo: int, hi: int, n: int): (r: seq<Config>)
    decreases hi - lo
    ensures |r| == Span(lo, hi) * Span(1, n)
    ensures forall c :: c in r <==> Is2D(c) && lo <= c.ne[0] <= hi && 1 <= c.ne[1] <= n
    ensures Sorted(r)
  {
    if lo > hi then []
    else
      var row := Row2D(lo, 1, n);
      var rest := Grid2D(lo + 1, hi, n);
      SortedConcat(row, rest);
      assert Span(lo, hi) * Span(1, n) == Span(1, n) + Span(lo + 1, hi) * Span(1, n);
      row + rest
  }

  /** The 3D candidates for fixed `d1`, `d2`, with `d3` in `lo..hi`. */
  function Line3D(d1: int, d2: int, lo: int, hi: int): (r: seq<Config>)
    decreases hi - lo
    ensures |r| == Span(lo, hi)
    ensures forall c :: c in r <==>
      Is3D(c) && c.ne[0] == d1 && c.ne[1] == d2 && lo <= c.ne[2] <= hi
    ensures Sorted(r)
  {
    if lo > hi then []
    else
      var rest := Line3D(d1, d2, lo + 1, hi);
      SortedConcat([Config3D(d1, d2, lo)], rest);
      [Config3D(d1, d2, lo)] + rest
  }

  /** The 3D candidates for fixed `d1`, `d2` in `lo..hi`, `d3` in `1..k`. */
  function Plane3D(d1: int, lo: int, hi: int, k: int): (r: seq<Config>)
    decreases hi - lo
    ensures |r| == Span(lo, hi) * Span(1, k)
    ensures forall c :: c in r <==>
      Is3D(c) && c.ne[0] == d1 && lo <= c.ne[1] <= hi && 1 <= c.ne[2] <= k
    ensures Sorted(r)
  {
    if lo > hi then []
    else
      var line := Line3D(d1, lo, 1, k);
      var rest := Plane3D(d1, lo + 1, hi, k);
      SortedConcat(line, rest);
      assert Span(lo, hi) * Span(1, k) == Span(1, k) + Span(lo + 1, hi) * Span(1, k);
      line + rest
  }

  /** `product(range(lo, hi+1), range(1, k+1), range(1, k+1))`. */
  function Cube3D(lo: int, hi: int, k: int): (r: seq<Config>)
    decreases hi - lo
    ensures |r| == Span(lo, hi) * (Span(1, k) * Span(1, k))
    ensures forall c :: c in r <==>
      Is3D(c) && lo <= c.ne[0] <= hi && 1 <= c.ne[1] <= k && 1 <= c.ne[2] <= k
    ensures Sorted(r)
  {
    if lo > hi then []
    else
      var plane := Plane3D(lo, 1, k, k);
      var rest := Cube3D(lo + 1, hi, k);
      SortedConcat(plane, rest);
      assert Span(lo, hi) * (Span(1, k) * Span(1, k))
          == Span(1, k) * Span(1, k) + Span(lo + 1, hi) * (Span(1, k) * Span(1, k));
      plane + rest
  }

  function Cands1D(maxDim: int): seq<Config> {
    Line1D(1, maxDim)
  }

  function Cands2D(maxDim: int): seq<Config> {
    Grid2D(1, maxDim, maxDim)
  }

  function Cands3D(maxDim: int): seq<Config> {
    Cube3D(1, Bound3D(maxDim), Bound3D(maxDim))
  }

  /** Each scan is in order, every 1D candidate precedes every 2D and 3D one,
      and every 2D candidate precedes every 3D one. */
  lemma ScansOrdered(maxDim: int)
    ensures Sorted(Cands1D(maxDim)) && Sorted(Cands2D(maxDim)) && Sorted(Cands3D(maxDim))
    ensures WellShaped(Cands1D(maxDim)) && WellShaped(Cands2D(maxDim)) && WellShaped(Cands3D(maxDim))
    ensures forall x, y :: x in Cands2D(maxDim) && y in Cands3D(maxDim) ==> Precedes(x, y)
    ensures forall x, y :: x in Cands1D(maxDim) && y in Cands2D(maxDim) + Cands3D(maxDim) ==> Precedes(x, y)
  {
  }

  /** Every candidate one type is tried against, in the order tried. */
  function Candidates(maxDim: int): (r: seq<Config>)
    ensures forall c :: c in r <==>
      || (Is1D(c) && 1 <= c.ne[0] <= maxDim)
      || (Is2D(c) && 1 <= c.ne[0] <= maxDim && 1 <= c.ne[1] <= maxDim)
      || (Is3D(c) && 1 <= c.ne[0] <= Bound3D(maxDim) && 1 <= c.ne[1] <= Bound3D(maxDim)
                  && 1 <= c.ne[2] <= Bound3D(maxDim))
    ensures Sorted(r)
    ensures WellShaped(r)
    ensures |r| == 0 <==> maxDim < 1
  {
    var c1, c2, c3 := Cands1D(maxDim), Cands2D(maxDim), Cands3D(maxDim);
    ScansOrdered(maxDim);
    SortedConcat(c2, c3);
    SortedConcat(c1, c2 + c3);
    c1 + (c2 + c3)
  }

  // ---------------------------------------------------------------------
  // Filtering and the search proper.
  // ---------------------------------------------------------------------

  predicate WellShaped(cands: seq<Config>) {
    forall c :: c in cands ==> |c.ne| >= MaxDims && |c.nb| >= MaxDims
  }

  /** Evaluate `ggml_nbytes` on each candidate in turn and keep those that
      hit the target; the first failing evaluation aborts the whole scan. */
  function Matches(table: Table, name: string, cands: seq<Config>, target: int): (r: Result<seq<Config>, Error>)
    requires WellShaped(cands)
    ensures r.Success? ==> MatchSet(table, name, target, cands, r.value)
    ensures r.Success? && Sorted(cands) ==> Sorted(r.value)
    ensures r.Failure? <==> exists c :: c in cands && GgmlNBytes(table, name, c.ne, c.nb).Failure?
    ensures r.Failure? && HasKey(table, name) ==> r.error == ZeroDivision
  {
    if |cands| == 0 then Success([])
    else
      var c := cands[0];
      assert cands == [c] + cands[1..];
      match GgmlNBytes(table, name, c.ne, c.nb)
      case Failure(err) => Failure(err)
      case Success(bytes) =>
        match Matches(table, name, cands[1..], target)
        case Failure(err) => Failure(err)
        case Success(rest) =>
          if bytes == target then
            if Sorted(cands) then
              SortedConcat([c], rest);
              Success([c] + rest)
            else Success([c] + rest)
          else Success(rest)
  }

  /** `ms` holds exactly the candidates of `cands` that hit the target. */
  ghost predicate MatchSet(table: Table, name: string, target: int, cands: seq<Config>, ms: seq<Config>)
    requires WellShaped(cands)
  {
    forall c :: c in ms <==> c in cands && GgmlNBytes(table, name, c.ne, c.nb) == Success(target)
  }

  /** Matches of two consecutive scans, concatenated, are the matches of the
      concatenated scan, and stay in order. */
  lemma JoinMatches(table: Table, name: string, target: int,
                    a: seq<Config>, b: seq<Config>, ma: seq<Config>, mb: seq<Config>)
    requires WellShaped(a) && WellShaped(b)
    requires MatchSet(table, name, target, a, ma) && MatchSet(table, name, target, b, mb)
    requires Sorted(ma) && Sorted(mb)
    requires forall x, y :: x in a && y in b ==> Precedes(x, y)
    ensures WellShaped(a + b)
    ensures MatchSet(table, name, target, a + b, ma + mb)
    ensures Sorted(ma + mb)
  {
    SortedConcat(ma, mb);
  }

  /** The three scans of one type, 1D then 2D then 3D, concatenated. */
  function SearchType(table: Table, name: string, target: int, maxDim: int): (r: Result<seq<Config>, Error>)
    ensures r.Success? ==> MatchSet(table, name, target, Candidates(maxDim), r.value)
    ensures r.Success? ==> Sorted(r.value)
    ensures r.Failure? <==>
      exists c :: c in Candidates(maxDim) && GgmlNBytes(table, name, c.ne, c.nb).Failure?
    ensures HasKey(table, name) ==>
      (r.Failure? <==> maxDim >= 1 && BlckSize(table, name) == Success(0))
    ensures r.Failure? && HasKey(table, name) ==> r.error == ZeroDivision
  {
    var c1, c2, c3 := Cands1D(maxDim), Cands2D(maxDim), Cands3D(maxDim);
    assert Candidates(maxDim) == c1 + (c2 + c3);
    assert maxDim >= 1 ==> Config1D(1) in c1;
    ScansOrdered(maxDim);
    match Matches(table, name, c1, target)
    case Failure(err) => Failure(err)
    case Success(m1) =>
      match Matches(table, name, c2, target)
      case Failure(err) => Failure(err)
      case Success(m2) =>
        match Matches(table, name, c3, target)
        case Failure(err) => Failure(err)
        case Success(m3) =>
          JoinMatches(table, name, target, c2, c3, m2, m3);
          JoinMatches(table, name, target, c1, c2 + c3, m1, m2 + m3);
          Success(m1 + (m2 + m3))
  }

  /** `'DEPRECATED'` display name, or one containing `'REMOVED'`. */
  predicate Skipped(t: Trait) {
    t.typeName == "DEPRECATED" || Contains(t.typeName, "REMOVED")
  }

  predicate OccursAt(s: string, sub: string, i: int) {
    0 <= i && i + |sub| <= |s| && s[i..i + |sub|] == sub
  }

  /** Python's `sub in s` on strings. */
  function Contains(s: string, sub: string): (b: bool)
    ensures b <==> exists i :: OccursAt(s, sub, i)
  {
    if |s| < |sub| then false
    else if s[..|sub|] == sub then
      assert OccursAt(s, sub, 0);
      true
    else
      var b := Contains(s[1..], sub);
      assert forall i :: OccursAt(s[1..], sub, i) <==> OccursAt(s, sub, i + 1) by {
        forall i ensures OccursAt(s[1..], sub, i) <==> OccursAt(s, sub, i + 1) {
          if 0 <= i && i + |sub| <= |s[1..]| {
            assert s[1..][i..i + |sub|] == s[i + 1..i + 1 + |sub|];
          }
        }
      }
      assert !OccursAt(s, sub, 0);
      assert (exists i :: OccursAt(s, sub, i)) ==> exists i :: OccursAt(s[1..], sub, i) by {
        if exists i :: OccursAt(s, sub, i) {
          var i :| OccursAt(s, sub, i);
          assert OccursAt(s[1..], sub, i - 1);
        }
      }
      b
  }

  /** Some candidate of the search space hits `target` for type `name`. */
  ghost predicate HasMatch(table: Table, name: string, target: int, maxDim: int) {
    exists c :: c in Candidates(maxDim) && GgmlNBytes(table, name, c.ne, c.nb) == Success(target)
  }

  /** A listed type: at least one match, matches in enumeration order, and
      exactly the candidates that hit the target. */
  ghost predicate Listed(table: Table, target: int, maxDim: int, e: TypeMatches) {
    && |e.matches| > 0
    && Sorted(e.matches)
    && MatchSet(table, e.name, target, Candidates(maxDim), e.matches)
  }

  /** Every entry of `res` is a listed type searched from entry `i` on. */
  ghost predicate SoundFrom(table: Table, target: int, maxDim: int, i: nat, res: seq<TypeMatches>) {
    forall e :: e in res ==>
      && Listed(table, target, maxDim, e)
      && exists k :: i <= k < |table| && table[k].key == e.name && !Skipped(table[k].traits)
  }

  /** Every searched entry from `i` on that has a match is listed in `res`. */
  ghost predicate CompleteFrom(table: Table, target: int, maxDim: int, i: nat, res: seq<TypeMatches>) {
    forall k {:trigger HasMatch(table, table[k].key, target, maxDim)} ::
      i <= k < |table| && !Skipped(table[k].traits) && HasMatch(table, table[k].key, target, maxDim)
      ==> exists e :: e in res && e.name == table[k].key
  }

  /** No type name is listed twice, as for the keys of a Python dictionary. */
  predicate NamesDistinct(res: seq<TypeMatches>) {
    forall a, b :: 0 <= a < b < |res| ==> res[a].name != res[b].name
  }

  /** Prepending entry `i`'s matches keeps the names distinct: every later
      name belongs to an entry after `i`, whose key differs from `i`'s. */
  lemma {:induction false} KeepDistinct(table: Table, target: int, maxDim: int, i: nat, ms: seq<Config>, rest: seq<TypeMatches>)
    requires i < |table|
    requires SoundFrom(table, target, maxDim, i + 1, rest)
    requires KeysDistinct(table) ==> NamesDistinct(rest)
    ensures KeysDistinct(table) ==>
      NamesDistinct(if |ms| > 0 then [TypeMatches(table[i].key, ms)] + rest else rest)
  {
    if KeysDistinct(table) && |ms| > 0 {
      var res := [TypeMatches(table[i].key, ms)] + rest;
      forall a, b | 0 <= a < b < |res| ensures res[a].name != res[b].name {
        if a == 0 {
          assert res[b] in rest;
          var k :| i + 1 <= k < |table| && table[k].key == res[b].name && !Skipped(table[k].traits);
          assert table[i].key != table[k].key;
        } else {
          assert res[a] == rest[a - 1] && res[b] == rest[b - 1];
        }
      }
    }
  }

  lemma {:induction false} SkipStep(table: Table, target: int, maxDim: int, i: nat, rest: seq<TypeMatches>)
    requires i < |table| && Skipped(table[i].traits)
    requires SoundFrom(table, target, maxDim, i + 1, rest)
    requires CompleteFrom(table, target, maxDim, i + 1, rest)
    ensures SoundFrom(table, target, maxDim, i, rest)
    ensures CompleteFrom(table, target, maxDim, i, rest)
  {
    forall e | e in rest
      ensures exists k :: i <= k < |table| && table[k].key == e.name && !Skipped(table[k].traits)
    {
      var k :| i + 1 <= k < |table| && table[k].key == e.name && !Skipped(table[k].traits);
    }
  }

  lemma {:induction false} KeepSound(table: Table, target: int, maxDim: int, i: nat, ms: seq<Config>, rest: seq<TypeMatches>)
    requires i < |table| && !Skipped(table[i].traits)
    requires MatchSet(table, table[i].key, target, Candidates(maxDim), ms) && Sorted(ms)
    requires SoundFrom(table, target, maxDim, i + 1, rest)
    ensures SoundFrom(table, target, maxDim, i, if |ms| > 0 then [TypeMatches(table[i].key, ms)] + rest else rest)
  {
    var name := table[i].key;
    var res := if |ms| > 0 then [TypeMatches(name, ms)] + rest else rest;
    forall e | e in res
      ensures Listed(table, target, maxDim, e)
      ensures exists k :: i <= k < |table| && table[k].key == e.name && !Skipped(table[k].traits)
    {
      if e in rest {
        var k :| i + 1 <= k < |table| && table[k].key == e.name && !Skipped(table[k].traits);
      } else {
        assert e == TypeMatches(name, ms);
        assert table[i].key == e.name;
      }
    }
  }

  lemma {:induction false} KeepComplete(table: Table, target: int, maxDim: int, i: nat, ms: seq<Config>, rest: seq<TypeMatches>)
    requires i < |table|
    requires MatchSet(table, table[i].key, target, Candidates(maxDim), ms)
    requires CompleteFrom(table, target, maxDim, i + 1, rest)
    ensures CompleteFrom(table, target, maxDim, i, if |ms| > 0 then [TypeMatches(table[i].key, ms)] + rest else rest)
  {
    var name := table[i].key;
    var res := if |ms| > 0 then [TypeMatches(name, ms)] + rest else rest;
    assert HasMatch(table, name, target, maxDim) ==> |ms| > 0 by {
      if HasMatch(table, name, target, maxDim) {
        var c :| c in Candidates(maxDim) && GgmlNBytes(table, name, c.ne, c.nb) == Success(target);
        assert c in ms;
      }
    }
    forall k | i <= k < |table| && !Skipped(table[k].traits) && HasMatch(table, table[k].key, target, maxDim)
      ensures exists e :: e in res && e.name == table[k].key
    {
      if k == i {
        assert TypeMatches(name, ms) in res;
      } else {
        var e :| e in rest && e.name == table[k].key;
        assert e in res;
      }
    }
  }

  /** The loop over the table from entry `i` on. */
  function FindFrom(table: Table, target: int, maxDim: int, i: nat): (r: Result<seq<TypeMatches>, Error>)
    requires i <= |table|
    decreases |table| - i
    ensures r.Success? ==> SoundFrom(table, target, maxDim, i, r.value)
    ensures r.Success? ==> CompleteFrom(table, target, maxDim, i, r.value)
    ensures r.Success? && KeysDistinct(table) ==> NamesDistinct(r.value)
    ensures r.Failure? <==> maxDim >= 1 && exists k ::
      i <= k < |table| && !Skipped(table[k].traits) && BlckSize(table, table[k].key) == Success(0)
    ensures r.Failure? ==> r.error == ZeroDivision
  {
    if i == |table| then Success([])
    else if Skipped(table[i].traits) then
      var r := FindFrom(table, target, maxDim, i + 1);
      if r.Success? then
        SkipStep(table, target, maxDim, i, r.value);
        r
      else r
    else
      var name := table[i].key;
      assert HasKey(table, name);
      match SearchType(table, name, target, maxDim)
      case Failure(err) => Failure(err)
      case Success(ms) =>
        match FindFrom(table, target, maxDim, i + 1)
        case Failure(err) => Failure(err)
        case Success(rest) =>
          KeepSound(table, target, maxDim, i, ms, rest);
          KeepComplete(table, target, maxDim, i, ms, rest);
          KeepDistinct(table, target, maxDim, i, ms, rest);
          if |ms| > 0 then Success([TypeMatches(name, ms)] + rest) else Success(rest)
  }

  /** `find_tensor_configurations(target_bytes, max_dim)`: the types that have
      at least one match, in table order, each with its matches. */
  function FindConfigurations(table: Table, target: int, maxDim: int): (r: Result<seq<TypeMatches>, Error>)
    ensures r.Success? ==> SoundFrom(table, target, maxDim, 0, r.value)
    ensures r.Success? ==> CompleteFrom(table, target, maxDim, 0, r.value)
    ensures r.Success? && KeysDistinct(table) ==> NamesDistinct(r.value)
    ensures r.Failure? <==> maxDim >= 1 && exists k ::
      0 <= k < |table| && !Skipped(table[k].traits) && BlckSize(table, table[k].key) == Success(0)
    ensures r.Failure? ==> r.error == ZeroDivision
  {
    FindFrom(table, target, maxDim, 0)
  }
}
