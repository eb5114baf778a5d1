/** What the inverse search promises its callers: soundness, completeness
    over the enumerated ranges, the fixed shape patterns, ordering, the skip
    rule, when it fails, and growth with `max_dim`. */
module SearchProperties {
  import opened Wrappers
  import opened TypeTraits
  import opened NBytes
  import opened Search

  /** What the search records about one listed type. */
  lemma {:induction false} ListedEntry(table: Table, target: int, maxDim: int, e: TypeMatches)
    requires FindConfigurations(table, target, maxDim).Success?
    requires e in FindConfigurations(table, target, maxDim).value
    ensures MatchSet(table, e.name, target, Candidates(maxDim), e.matches)
    ensures |e.matches| > 0 && Sorted(e.matches)
    ensures exists k :: 0 <= k < |table| && table[k].key == e.name && !Skipped(table[k].traits)
    ensures maxDim >= 1
  {
    assert Listed(table, target, maxDim, e);
    assert e.matches[0] in Candidates(maxDim);
  }

  /** Membership of one candidate in a listed type's matches. */
  lemma {:induction false} InMatches(table: Table, target: int, maxDim: int, e: TypeMatches, c: Config)
    requires FindConfigurations(table, target, maxDim).Success?
    requires e in FindConfigurations(table, target, maxDim).value
    ensures c in e.matches <==>
      c in Candidates(maxDim) && |c.ne| >= MaxDims && |c.nb| >= MaxDims
      && GgmlNBytes(table, e.name, c.ne, c.nb) == Success(target)
  {
    ListedEntry(table, target, maxDim, e);
    assert WellShaped(Candidates(maxDim));
  }

  /** The candidate set spelled out as the three patterns and their ranges. */
  lemma {:induction false} CandidateShape(maxDim: int, c: Config)
    ensures c in Candidates(maxDim) <==>
            || (c.shape == Shape1D && |c.ne| == 4 && c.ne == [c.ne[0], 1, 1, 1] && c.nb == [1, 1, 1, 1]
                && 1 <= c.ne[0] <= maxDim)
            || (c.shape == Shape2D && |c.ne| == 4 && c.ne == [c.ne[0], c.ne[1], 1, 1]
                && c.nb == [1, c.ne[0], 1, 1]
                && 1 <= c.ne[0] <= maxDim && 1 <= c.ne[1] <= maxDim)
            || (c.shape == Shape3D && |c.ne| == 4 && c.ne == [c.ne[0], c.ne[1], c.ne[2], 1]
                && c.nb == [1, c.ne[0], c.ne[0] * c.ne[1], 1]
                && 1 <= c.ne[0] < maxDim && 1 <= c.ne[1] < maxDim && 1 <= c.ne[2] < maxDim
                && c.ne[0] < 32 && c.ne[1] < 32 && c.ne[2] < 32)
  {
  }

  /** Every reported configuration, fed back to `ggml_nbytes` with its type,
      gives exactly the target. */
  lemma {:induction false} Soundness(table: Table, target: int, maxDim: int, e: TypeMatches, c: Config)
    requires FindConfigurations(table, target, maxDim).Success?
    requires e in FindConfigurations(table, target, maxDim).value
    requires c in e.matches
    ensures |c.ne| >= MaxDims && |c.nb| >= MaxDims
    ensures GgmlNBytes(table, e.name, c.ne, c.nb) == Success(target)
  {
    InMatches(table, target, maxDim, e, c);
  }

  /** Every reported configuration follows one of the three fixed patterns,
      with its free dimensions inside the searched ranges. */
  lemma {:induction false} ShapePatterns(table: Table, target: int, maxDim: int, e: TypeMatches, c: Config)
    requires FindConfigurations(table, target, maxDim).Success?
    requires e in FindConfigurations(table, target, maxDim).value
    requires c in e.matches
    ensures |c.ne| == 4
    ensures || (c.shape == Shape1D && c.ne == [c.ne[0], 1, 1, 1] && c.nb == [1, 1, 1, 1]
                && 1 <= c.ne[0] <= maxDim)
            || (c.shape == Shape2D && c.ne == [c.ne[0], c.ne[1], 1, 1] && c.nb == [1, c.ne[0], 1, 1]
                && 1 <= c.ne[0] <= maxDim && 1 <= c.ne[1] <= maxDim)
            || (c.shape == Shape3D && c.ne == [c.ne[0], c.ne[1], c.ne[2], 1]
                && c.nb == [1, c.ne[0], c.ne[0] * c.ne[1], 1]
                && 1 <= c.ne[0] < maxDim && 1 <= c.ne[1] < maxDim && 1 <= c.ne[2] < maxDim
                && c.ne[0] < 32 && c.ne[1] < 32 && c.ne[2] < 32)
  {
    InMatches(table, target, maxDim, e, c);
    CandidateShape(maxDim, c);
  }

  /** Every candidate of a searched type that hits the target is reported
      under that type's key: all 1D sizes and 2D pairs in `1..max_dim`, and
      3D triples in `1..min(max_dim, 32) - 1`. */
  lemma {:induction false} Completeness(table: Table, target: int, maxDim: int, k: int, c: Config)
    requires FindConfigurations(table, target, maxDim).Success?
    requires 0 <= k < |table| && !Skipped(table[k].traits)
    requires c in Candidates(maxDim)
    requires |c.ne| >= MaxDims && |c.nb| >= MaxDims
    requires GgmlNBytes(table, table[k].key, c.ne, c.nb) == Success(target)
    ensures exists e :: e in FindConfigurations(table, target, maxDim).value
                        && e.name == table[k].key && c in e.matches
  {
    var res := FindConfigurations(table, target, maxDim).value;
    assert HasMatch(table, table[k].key, target, maxDim);
    assert CompleteFrom(table, target, maxDim, 0, res);
    var e :| e in res && e.name == table[k].key;
    InMatches(table, target, maxDim, e, c);
  }

  /** Within a type, 1D matches come before 2D ones and 2D before 3D; inside a
      shape the order is lexicographic with the leftmost dimension outermost;
      no configuration is reported twice. */
  lemma {:induction false} Ordering(table: Table, target: int, maxDim: int, e: TypeMatches, i: int, j: int)
    requires FindConfigurations(table, target, maxDim).Success?
    requires e in FindConfigurations(table, target, maxDim).value
    requires 0 <= i < j < |e.matches|
    ensures Rank(e.matches[i].shape) <= Rank(e.matches[j].shape)
    ensures e.matches[i].shape == e.matches[j].shape ==>
      || e.matches[i].ne[0] < e.matches[j].ne[0]
      || (e.matches[i].ne[0] == e.matches[j].ne[0] && e.matches[i].ne[1] < e.matches[j].ne[1])
      || (e.matches[i].ne[0] == e.matches[j].ne[0] && e.matches[i].ne[1] == e.matches[j].ne[1]
          && e.matches[i].ne[2] < e.matches[j].ne[2])
    ensures e.matches[i] != e.matches[j]
  {
    ListedEntry(table, target, maxDim, e);
    assert Precedes(e.matches[i], e.matches[j]);
  }

  /** A type is listed only when it has at least one match. */
  lemma {:induction false} OnlyTypesWithMatches(table: Table, target: int, maxDim: int, e: TypeMatches)
    requires FindConfigurations(table, target, maxDim).Success?
    requires e in FindConfigurations(table, target, maxDim).value
    ensures |e.matches| > 0
  {
    ListedEntry(table, target, maxDim, e);
  }

  /** A deprecated or removed type is never searched, so never listed. */
  lemma {:induction false} SkippedNeverListed(table: Table, target: int, maxDim: int, k: int)
    requires KeysDistinct(table)
    requires 0 <= k < |table| && Skipped(table[k].traits)
    requires FindConfigurations(table, target, maxDim).Success?
    ensures forall e :: e in FindConfigurations(table, target, maxDim).value ==> e.name != table[k].key
  {
    forall e | e in FindConfigurations(table, target, maxDim).value
      ensures e.name != table[k].key
    {
      ListedEntry(table, target, maxDim, e);
      var k' :| 0 <= k' < |table| && table[k'].key == e.name && !Skipped(table[k'].traits);
      assert k' != k;
    }
  }

  lemma {:induction false} OccurrenceStartsWithFirst(s: string, sub: string, i: int)
    requires OccursAt(s, sub, i) && |sub| > 0
    ensures s[i] == sub[0]
  {
    assert s[i..i + |sub|][0] == s[i];
  }

  /** The display-name test that decides skipping: an exact `DEPRECATED`, or
      `REMOVED` anywhere, case-sensitively. */
  lemma {:induction false} SkipRule()
    ensures Skipped(Trait("DEPRECATED", Concrete(1), Concrete(4)))
    ensures Skipped(Trait("Q4_2 (REMOVED)", Concrete(32), Concrete(18)))
    ensures !Skipped(Trait("f32", Concrete(1), Concrete(4)))
    ensures !Skipped(Trait("deprecated", Concrete(1), Concrete(4)))
  {
    assert OccursAt("Q4_2 (REMOVED)", "REMOVED", 6);
    var s := "deprecated";
    forall i | OccursAt(s, "REMOVED", i) ensures false {
      OccurrenceStartsWithFirst(s, "REMOVED", i);
    }
  }

  /** With `max_dim <= 0` there is no 1D or 2D candidate (nor a 3D one), and
      the search returns nothing. */
  lemma {:induction false} NonPositiveMaxDim(table: Table, target: int, maxDim: int)
    requires maxDim <= 0
    ensures Cands1D(maxDim) == [] && Cands2D(maxDim) == [] && Cands3D(maxDim) == []
    ensures FindConfigurations(table, target, maxDim) == Success([])
  {
    var r := FindConfigurations(table, target, maxDim);
    if |r.value| > 0 {
      ListedEntry(table, target, maxDim, r.value[0]);
    }
  }

  /** A 1D configuration and the 2D configuration with the same first
      dimension and second dimension 1 always have the same byte count. */
  lemma {:induction false} OneDEqualsTwoDWithUnitRow(table: Table, name: string, d: int)
    ensures GgmlNBytes(table, name, Config1D(d).ne, Config1D(d).nb)
         == GgmlNBytes(table, name, Config2D(d, 1).ne, Config2D(d, 1).nb)
  {
  }

  /** Hence every 1D match `[d,1,1,1]` is accompanied by the 2D match
      `[d,1,1,1] / [1,d,1,1]`. */
  lemma {:induction false} OneDMatchHasTwoDTwin(table: Table, target: int, maxDim: int, e: TypeMatches, d: int)
    requires FindConfigurations(table, target, maxDim).Success?
    requires e in FindConfigurations(table, target, maxDim).value
    requires Config1D(d) in e.matches
    ensures Config2D(d, 1) in e.matches
  {
    OneDEqualsTwoDWithUnitRow(table, e.name, d);
    InMatches(table, target, maxDim, e, Config1D(d));
    InMatches(table, target, maxDim, e, Config2D(d, 1));
  }

  lemma {:induction false} CandidatesGrow(n: int)
    ensures forall c :: c in Candidates(n) ==> c in Candidates(n + 1)
  {
  }

  /** The matches of one type over the candidates for `n` are among its
      matches over the candidates for `n + 1`. */
  lemma {:induction false} MatchSetGrows(table: Table, name: string, target: int, n: int,
                                         m: seq<Config>, m': seq<Config>)
    requires MatchSet(table, name, target, Candidates(n), m)
    requires MatchSet(table, name, target, Candidates(n + 1), m')
    ensures forall c :: c in m ==> c in m'
  {
    CandidatesGrow(n);
  }

  /** A type listed by the smaller search is listed by the larger one. */
  lemma {:induction false} ListedAgain(table: Table, target: int, n: int, e: TypeMatches)
    requires FindConfigurations(table, target, n).Success?
    requires FindConfigurations(table, target, n + 1).Success?
    requires e in FindConfigurations(table, target, n).value
    ensures exists e' :: e' in FindConfigurations(table, target, n + 1).value && e'.name == e.name
  {
    CandidatesGrow(n);
    ListedEntry(table, target, n, e);
    var k :| 0 <= k < |table| && table[k].key == e.name && !Skipped(table[k].traits);
    var c0 := e.matches[0];
    InMatches(table, target, n, e, c0);
    Completeness(table, target, n + 1, k, c0);
  }

  /** Under the same name, the larger search keeps every match of the smaller. */
  lemma {:induction false} MatchesKept(table: Table, target: int, n: int, e: TypeMatches, e': TypeMatches)
    requires FindConfigurations(table, target, n).Success?
    requires FindConfigurations(table, target, n + 1).Success?
    requires e in FindConfigurations(table, target, n).value
    requires e' in FindConfigurations(table, target, n + 1).value
    requires e'.name == e.name
    ensures forall c :: c in e.matches ==> c in e'.matches
  {
    ListedEntry(table, target, n, e);
    ListedEntry(table, target, n + 1, e');
    MatchSetGrows(table, e.name, target, n, e.matches, e'.matches);
  }

  /** Raising `max_dim` by one never loses a match: if the larger search
      succeeds so does the smaller, and every type and configuration it
      reports is reported again. */
  lemma {:induction false} Monotone(table: Table, target: int, n: int)
    requires FindConfigurations(table, target, n + 1).Success?
    ensures FindConfigurations(table, target, n).Success?
    ensures forall e :: e in FindConfigurations(table, target, n).value ==>
      exists e' :: e' in FindConfigurations(table, target, n + 1).value && e'.name == e.name
                   && forall c :: c in e.matches ==> c in e'.matches
  {
    forall e | e in FindConfigurations(table, target, n).value
      ensures exists e' :: e' in FindConfigurations(table, target, n + 1).value && e'.name == e.name
                           && forall c :: c in e.matches ==> c in e'.matches
    {
      ListedAgain(table, target, n, e);
      var e' :| e' in FindConfigurations(table, target, n + 1).value && e'.name == e.name;
      MatchesKept(table, target, n, e, e');
    }
  }

  // ---------------------------------------------------------------------
  // Closed forms of the byte count on the three search patterns.
  // ---------------------------------------------------------------------

  /** With block size 1 each pattern is a dense row-major layout: the type
      size plus one byte per element beyond the first. */
  lemma {:induction false} UnquantisedPatterns(tsize: int, d1: int, d2: int, d3: int)
    ensures Formula(Config1D(d1).ne, Config1D(d1).nb, 1, tsize) == Success(tsize + d1 - 1)
    ensures Formula(Config2D(d1, d2).ne, Config2D(d1, d2).nb, 1, tsize) == Success(tsize + d1 * d2 - 1)
    ensures Formula(Config3D(d1, d2, d3).ne, Config3D(d1, d2, d3).nb, 1, tsize)
         == Success(tsize + d1 * d2 * d3 - 1)
  {
    assert (d2 - 1) * d1 == d1 * d2 - d1;
    assert (d3 - 1) * (d1 * d2) == d1 * d2 * d3 - d1 * d2;
  }

  /** With a block size other than 0 and 1, axis 0 counts whole blocks of its
      `d1` elements (rounded down) and the other axes are raw strides. */
  lemma {:induction false} QuantisedPatterns(blck: int, tsize: int, d1: int, d2: int, d3: int)
    requires blck != 0 && blck != 1
    ensures Formula(Config1D(d1).ne, Config1D(d1).nb, blck, tsize) == Success(FloorDiv(d1, blck))
    ensures Formula(Config2D(d1, d2).ne, Config2D(d1, d2).nb, blck, tsize)
         == Success(FloorDiv(d1, blck) + (d2 - 1) * d1)
    ensures Formula(Config3D(d1, d2, d3).ne, Config3D(d1, d2, d3).nb, blck, tsize)
         == Success(FloorDiv(d1, blck) + (d2 - 1) * d1 + (d3 - 1) * (d1 * d2))
  {
  }

  /** For a type with block size 1 and type size `S`, the 1D size
      `target - S + 1` is reported whenever it lies in `1..max_dim`... */
  lemma {:induction false} UnquantisedOneDHitReported(table: Table, target: int, maxDim: int, k: int)
    requires FindConfigurations(table, target, maxDim).Success?
    requires 0 <= k < |table| && !Skipped(table[k].traits)
    requires BlckSize(table, table[k].key) == Success(1)
    requires 1 <= target - TypeSize(table, table[k].key).value + 1 <= maxDim
    ensures exists e :: e in FindConfigurations(table, target, maxDim).value && e.name == table[k].key
                        && Config1D(target - TypeSize(table, table[k].key).value + 1) in e.matches
  {
    var key := table[k].key;
    var tsize := TypeSize(table, key).value;
    var c := Config1D(target - tsize + 1);
    UnquantisedPatterns(tsize, target - tsize + 1, 1, 1);
    assert HasKey(table, key);
    assert GgmlNBytes(table, key, c.ne, c.nb) == Formula(c.ne, c.nb, 1, tsize);
    assert c in Candidates(maxDim);
    Completeness(table, target, maxDim, k, c);
  }

  /** ... and it is the only 1D size reported for that type. */
  lemma {:induction false} UnquantisedOneDOnlyHit(table: Table, target: int, maxDim: int, e: TypeMatches, d: int)
    requires FindConfigurations(table, target, maxDim).Success?
    requires e in FindConfigurations(table, target, maxDim).value
    requires BlckSize(table, e.name) == Success(1)
    requires Config1D(d) in e.matches
    ensures d == target - TypeSize(table, e.name).value + 1 && 1 <= d <= maxDim
  {
    ListedEntry(table, target, maxDim, e);
    InMatches(table, target, maxDim, e, Config1D(d));
    UnquantisedPatterns(TypeSize(table, e.name).value, d, 1, 1);
  }
}
