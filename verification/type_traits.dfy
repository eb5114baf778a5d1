/** The type-trait table read by the byte-size formula.

    The concrete table (`ggml_type_traits.py`) is not part of this model: a
    table here is any ordered sequence of (key, trait) entries, in the
    insertion order of the Python dictionary. */
module TypeTraits {
  import opened Wrappers

  /** A numeric trait field. The Python table stores either an integer or a
      string placeholder (the name of a C constant) in such a field. */
  datatype Field = Concrete(n: int) | Marker(text: string)

  /** What every string placeholder resolves to. */
  const PlaceholderValue: int := 32

  /** One row of the table: display name, elements per block, bytes per block. */
  datatype Trait = Trait(typeName: string, blckSize: Field, typeSize: Field)

  datatype Entry = Entry(key: string, traits: Trait)

  type Table = seq<Entry>

  /** The two ways the core can fail: a `KeyError` on a type name that is not
      in the table, and a `ZeroDivisionError` in the quantised formula. */
  datatype Error = UnknownType(name: string) | ZeroDivision

  predicate HasKey(table: Table, key: string) {
    exists k :: 0 <= k < |table| && table[k].key == key
  }

  /** A Python dictionary never holds a key twice. */
  predicate KeysDistinct(table: Table) {
    forall i, j :: 0 <= i < j < |table| ==> table[i].key != table[j].key
  }

  /** `type_traits[key]`: the trait of the first entry with that key. */
  function Lookup(table: Table, key: string): (r: Option<Trait>)
    ensures r.None? <==> !HasKey(table, key)
    ensures r.Some? ==>
      exists k :: 0 <= k < |table| && table[k] == Entry(key, r.value)
                  && forall j :: 0 <= j < k ==> table[j].key != key
  {
    if |table| == 0 then None
    else if table[0].key == key then Some(table[0].traits)
    else
      var r := Lookup(table[1..], key);
      assert HasKey(table, key) ==> HasKey(table[1..], key) by {
        if HasKey(table, key) {
          var k :| 0 <= k < |table| && table[k].key == key;
          assert table[1..][k - 1].key == key;
        }
      }
      if r.Some? then
        var k :| 0 <= k < |table| - 1 && table[1..][k] == Entry(key, r.value)
                 && forall j :: 0 <= j < k ==> table[1..][j].key != key;
        assert table[k + 1] == Entry(key, r.value);
        assert forall j :: 0 <= j < k + 1 ==> table[j].key != key by {
          forall j | 0 <= j < k + 1 ensures table[j].key != key {
            if j > 0 { assert table[j] == table[1..][j - 1]; }
          }
        }
        r
      else r
  }

  /** The resolution rule shared by both numeric fields. */
  function ResolveField(f: Field): int {
    match f
    case Concrete(n) => n
    case Marker(_) => PlaceholderValue
  }

  /** `ggml_blck_size`: elements per block of the named type. */
  function BlckSize(table: Table, key: string): (r: Result<int, Error>)
    ensures r.Failure? <==> !HasKey(table, key)
    ensures r.Failure? ==> r.error == UnknownType(key)
  {
    match Lookup(table, key)
    case None => Failure(UnknownType(key))
    case Some(t) => Success(ResolveField(t.blckSize))
  }

  /** `ggml_type_size`: bytes per block of the named type. */
  function TypeSize(table: Table, key: string): (r: Result<int, Error>)
    ensures r.Failure? <==> !HasKey(table, key)
    ensures r.Failure? ==> r.error == UnknownType(key)
  {
    match Lookup(table, key)
    case None => Failure(UnknownType(key))
    case Some(t) => Success(ResolveField(t.typeSize))
  }

  /** In a table with distinct keys, both resolvers read the entry stored
      under the key: a placeholder gives 32, an integer gives itself. */
  lemma ResolversReadEntry(table: Table, key: string, t: Trait)
    requires KeysDistinct(table)
    requires Entry(key, t) in table
    ensures BlckSize(table, key) ==
      Success(if t.blckSize.Marker? then 32 else t.blckSize.n)
    ensures TypeSize(table, key) ==
      Success(if t.typeSize.Marker? then 32 else t.typeSize.n)
  {
    var i :| 0 <= i < |table| && table[i] == Entry(key, t);
    var r := Lookup(table, key);
    var k :| 0 <= k < |table| && table[k] == Entry(key, r.value)
             && forall j :: 0 <= j < k ==> table[j].key != key;
    assert k == i;
  }
}
