/**
 * The mods table (`class Mod` in both revisions), the lookups the handlers run
 * against it, SQLite's choice of a new row's primary key, and the two
 * invariants the writing handlers keep: `mod_id` is unique, and every
 * telemetry row points at an existing mod.
 *
 * A telemetry row enters this module only through its own primary key and its
 * `mod_id` foreign key (called `modRef` here, to tell it apart from the
 * external `mod_id` string of a mod), so that both revisions share it.
 */
module Registry {
  import opened Wrappers
  import opened Http

  /**
   * A row of the mods table: the surrogate primary key `id`, the external
   * identifier `modId` (the `mod_id` column, unique and required) and the
   * display name `modName`.
   */
  datatype Mod = Mod(id: int, modId: string, modName: string)

  /** `Mod.query.get(key)`: the row whose primary key is `key`, if any. */
  function ModByKey(mods: seq<Mod>, key: int): (m: Option<Mod>)
    ensures m.Some? ==> m.value in mods && m.value.id == key
    ensures m.None? ==> forall i :: 0 <= i < |mods| ==> mods[i].id != key
  {
    if mods == [] then None
    else if mods[0].id == key then Some(mods[0])
    else ModByKey(mods[1..], key)
  }

  /** `Mod.query.filter_by(mod_id=modId).first()`: the first row with that external id, if any. */
  function FindByModId(mods: seq<Mod>, modId: string): (m: Option<Mod>)
    ensures m.Some? ==> m.value in mods && m.value.modId == modId
    ensures m.None? ==> forall i :: 0 <= i < |mods| ==> mods[i].modId != modId
  {
    if mods == [] then None
    else if mods[0].modId == modId then Some(mods[0])
    else FindByModId(mods[1..], modId)
  }

  /**
   * The same query with the `mod_id` value of a JSON body. A JSON `null`
   * becomes `mod_id IS NULL`, which no row satisfies since the column is
   * NOT NULL.
   */
  function FindByJson(mods: seq<Mod>, v: JsonValue): (m: Option<Mod>)
    ensures v.JNull? ==> m.None?
    ensures m.Some? ==> m.value in mods && v == JString(m.value.modId)
    ensures v.JString? && m.None? ==> forall i :: 0 <= i < |mods| ==> mods[i].modId != v.s
  {
    match v
    case JNull => None
    case JString(s) => FindByModId(mods, s)
  }

  /** The primary-key column of the mods table. */
  function ModKeys(mods: seq<Mod>): (ks: seq<int>)
    ensures |ks| == |mods|
    ensures forall i :: 0 <= i < |mods| ==> ks[i] == mods[i].id
  {
    seq(|mods|, i requires 0 <= i < |mods| => mods[i].id)
  }

  /** The largest of a non-empty column of keys. */
  function MaxOf(ids: seq<int>): (m: int)
    requires ids != []
    ensures m in ids
    ensures forall i :: 0 <= i < |ids| ==> ids[i] <= m
  {
    if |ids| == 1 then ids[0]
    else
      var rest := MaxOf(ids[1..]);
      assert ids == [ids[0]] + ids[1..];
      if ids[0] >= rest then ids[0] else rest
  }

  /**
   * The primary key SQLite gives the next inserted row of a table with no
   * AUTOINCREMENT: one more than the largest key present, or 1 for an empty
   * table. It differs from every key already in the table.
   */
  function NextRowId(ids: seq<int>): (next: int)
    ensures forall i :: 0 <= i < |ids| ==> ids[i] < next
    ensures ids == [] ==> next == 1
    ensures ids != [] ==> next - 1 in ids
  {
    if ids == [] then 1 else MaxOf(ids) + 1
  }

  /** Primary keys of a table are pairwise different. */
  predicate DistinctIds(ids: seq<int>)
  {
    forall i, j :: 0 <= i < j < |ids| ==> ids[i] != ids[j]
  }

  /** The `mod_id` column is unique (`unique=True`). */
  predicate UniqueModIds(mods: seq<Mod>)
  {
    forall i, j :: 0 <= i < j < |mods| ==> mods[i].modId != mods[j].modId
  }

  /** Every foreign key in `refs` names an existing mod. */
  predicate AllResolve(mods: seq<Mod>, refs: seq<int>)
  {
    forall i :: 0 <= i < |refs| ==> ModByKey(mods, refs[i]).Some?
  }

  /** The invariant of the two tables, given the telemetry table's keys and foreign keys. */
  predicate StoreInvariant(mods: seq<Mod>, rowIds: seq<int>, refs: seq<int>)
  {
    && DistinctIds(ModKeys(mods))
    && UniqueModIds(mods)
    && DistinctIds(rowIds)
    && AllResolve(mods, refs)
  }

  /** Appending a row keeps every lookup that already succeeded. */
  lemma {:induction false} ModByKeyAppend(mods: seq<Mod>, x: Mod, key: int)
    requires ModByKey(mods, key).Some?
    ensures ModByKey(mods + [x], key) == ModByKey(mods, key)
  {
    if mods[0].id != key {
      assert (mods + [x])[1..] == mods[1..] + [x];
      ModByKeyAppend(mods[1..], x, key);
    }
  }

  /** Appending a row with a fresh key keeps a column of distinct keys distinct. */
  lemma AppendFreshId(ids: seq<int>)
    requires DistinctIds(ids)
    ensures DistinctIds(ids + [NextRowId(ids)])
  {
  }

  /**
   * Registering a mod whose `mod_id` is not yet taken, under the next free
   * key, keeps the store invariant, and the new mod is what a lookup by its
   * `mod_id` now finds.
   */
  lemma RegisterKeepsInvariant(mods: seq<Mod>, rowIds: seq<int>, refs: seq<int>, modId: string, modName: string)
    requires StoreInvariant(mods, rowIds, refs)
    requires FindByModId(mods, modId).None?
    ensures StoreInvariant(mods + [Mod(NextRowId(ModKeys(mods)), modId, modName)], rowIds, refs)
    ensures FindByModId(mods + [Mod(NextRowId(ModKeys(mods)), modId, modName)], modId)
         == Some(Mod(NextRowId(ModKeys(mods)), modId, modName))
  {
    var m := Mod(NextRowId(ModKeys(mods)), modId, modName);
    var mods' := mods + [m];
    assert ModKeys(mods') == ModKeys(mods) + [m.id];
    AppendFreshId(ModKeys(mods));
    forall i | 0 <= i < |refs| ensures ModByKey(mods', refs[i]).Some? {
      ModByKeyAppend(mods, m, refs[i]);
    }
    var found := FindByModId(mods', modId);
    assert found.Some? by { assert mods'[|mods|].modId == modId; }
    assert found.value == m by {
      var i :| 0 <= i < |mods'| && mods'[i] == found.value;
    }
  }

  /**
   * Recording a ping for a mod found by its `mod_id`, under the next free
   * telemetry key, keeps the store invariant.
   */
  lemma RecordKeepsInvariant(mods: seq<Mod>, rowIds: seq<int>, refs: seq<int>, m: Mod)
    requires StoreInvariant(mods, rowIds, refs)
    requires m in mods
    ensures StoreInvariant(mods, rowIds + [NextRowId(rowIds)], refs + [m.id])
  {
    AppendFreshId(rowIds);
    assert ModByKey(mods, m.id).Some? by {
      var i :| 0 <= i < |mods| && mods[i] == m;
    }
  }

  /**
   * The export's translation of a foreign key back to an external `mod_id`
   * is undone by the lookup that turns a `mod_id` into a mod: both name the
   * same row.
   */
  lemma {:induction false} KeyThenModId(mods: seq<Mod>, key: int)
    requires UniqueModIds(mods)
    requires ModByKey(mods, key).Some?
    ensures FindByModId(mods, ModByKey(mods, key).value.modId) == ModByKey(mods, key)
  {
    var m := ModByKey(mods, key).value;
    var f := FindByModId(mods, m.modId);
    var i :| 0 <= i < |mods| && mods[i] == m;
    var j :| 0 <= j < |mods| && mods[j] == f.value;
    assert i == j;
  }

  /**
   * Conversely, the foreign key that a ping stores (the key of the mod found
   * by `mod_id`) leads back to that same mod.
   */
  lemma {:induction false} ModIdThenKey(mods: seq<Mod>, modId: string)
    requires DistinctIds(ModKeys(mods))
    requires FindByModId(mods, modId).Some?
    ensures ModByKey(mods, FindByModId(mods, modId).value.id) == FindByModId(mods, modId)
  {
    var m := FindByModId(mods, modId).value;
    var k := ModByKey(mods, m.id);
    var i :| 0 <= i < |mods| && mods[i] == m;
    assert ModKeys(mods)[i] == m.id;
    var j :| 0 <= j < |mods| && mods[j] == k.value;
    assert ModKeys(mods)[j] == m.id;
  }

  /** The names of the mods whose key is `key`: the join partners of one telemetry row. */
  function NamesFor(mods: seq<Mod>, key: int): seq<string>
  {
    if mods == [] then []
    else (if mods[0].id == key then [mods[0].modName] else []) + NamesFor(mods[1..], key)
  }

  /**
   * The `mod_name` column of `mod JOIN telemetry ON mod.id = telemetry.mod_id`,
   * one entry per joined pair, given the telemetry table's foreign keys.
   */
  function JoinNames(mods: seq<Mod>, refs: seq<int>): seq<string>
  {
    if refs == [] then []
    else JoinNames(mods, refs[..|refs| - 1]) + NamesFor(mods, refs[|refs| - 1])
  }

  /** With distinct keys, exactly one mod joins a resolvable foreign key. */
  lemma {:induction false} NamesForResolved(mods: seq<Mod>, key: int)
    requires DistinctIds(ModKeys(mods))
    requires ModByKey(mods, key).Some?
    ensures NamesFor(mods, key) == [ModByKey(mods, key).value.modName]
  {
    if mods[0].id == key {
      NamesForAbsent(mods[1..], key);
    } else {
      assert ModKeys(mods[1..]) == ModKeys(mods)[1..];
      NamesForResolved(mods[1..], key);
    }
  }

  /** No mod joins a key that no mod has. */
  lemma {:induction false} NamesForAbsent(mods: seq<Mod>, key: int)
    requires forall i :: 0 <= i < |mods| ==> mods[i].id != key
    ensures NamesFor(mods, key) == []
  {
    if mods != [] {
      NamesForAbsent(mods[1..], key);
    }
  }

  /** A resolvable prefix of the foreign keys stays resolvable. */
  lemma PrefixResolves(mods: seq<Mod>, refs: seq<int>, n: nat)
    requires AllResolve(mods, refs)
    requires n <= |refs|
    ensures AllResolve(mods, refs[..n])
  {
    forall i | 0 <= i < n ensures ModByKey(mods, refs[..n][i]).Some? {
      assert refs[..n][i] == refs[i];
    }
  }

  /**
   * Under the store invariant the inner join loses no telemetry row and
   * duplicates none: it has one entry per row, the name of the row's mod.
   */
  lemma {:induction false} JoinOnePerRow(mods: seq<Mod>, refs: seq<int>)
    requires DistinctIds(ModKeys(mods))
    requires AllResolve(mods, refs)
    ensures |JoinNames(mods, refs)| == |refs|
    ensures forall i :: 0 <= i < |refs| ==> JoinNames(mods, refs)[i] == ModByKey(mods, refs[i]).value.modName
  {
    if refs != [] {
      var n := |refs| - 1;
      var p := refs[..n];
      PrefixResolves(mods, refs, n);
      JoinOnePerRow(mods, p);
      NamesForResolved(mods, refs[n]);
      var front := JoinNames(mods, p);
      var j := JoinNames(mods, refs);
      assert j == front + [ModByKey(mods, refs[n]).value.modName];
      forall i | 0 <= i < |refs| ensures j[i] == ModByKey(mods, refs[i]).value.modName {
        if i < n {
          assert j[i] == front[i];
          assert p[i] == refs[i];
        }
      }
    }
  }

  /** The join size, for callers that cannot assume the invariant up front. */
  lemma JoinTotal(mods: seq<Mod>, refs: seq<int>)
    ensures DistinctIds(ModKeys(mods)) && AllResolve(mods, refs) ==> |JoinNames(mods, refs)| == |refs|
  {
    if DistinctIds(ModKeys(mods)) && AllResolve(mods, refs) {
      JoinOnePerRow(mods, refs);
    }
  }
}
