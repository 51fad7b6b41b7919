/**
 * The form's observer table `rowObservers: [String: [ConditionType: [Taggable]]]`: for each
 * tag, the rows and sections whose hidden or disabled condition depends on that tag.
 * The table operations are generic in the observer type.
 */
module Observers {
  import opened Sequences
  import opened Conditions

  type Table<T> = map<string, map<ConditionType, seq<T>>>

  /** `rowObservers[tag]?[type] ?? []`. */
  function ObserversOf<T>(t: Table<T>, tag: string, ty: ConditionType): seq<T> {
    if tag in t && ty in t[tag] then t[tag][ty] else []
  }

  /** One pass of the loop of `addRowObservers` (Form.swift:262-273). */
  function AddOne<T(==)>(t: Table<T>, o: T, tag: string, ty: ConditionType): (r: Table<T>)
    ensures tag in r && ty in r[tag]
    ensures forall g :: g != tag ==> (g in r <==> g in t) && (g in t ==> r[g] == t[g])
  {
    if tag in t && ty in t[tag] then
      if o in t[tag][ty] then t else t[tag := t[tag][ty := t[tag][ty] + [o]]]
    else
      var inner := if tag in t then t[tag] else map[];
      t[tag := inner[ty := [o]]]
  }

  /** `addRowObservers(taggable, rowTags: tags, type: ty)`: one pass per tag, in order. */
  function AddAll<T(==)>(t: Table<T>, o: T, tags: seq<string>, ty: ConditionType): Table<T>
  {
    if tags == [] then t else AddOne(AddAll(t, o, tags[..|tags| - 1], ty), o, tags[|tags| - 1], ty)
  }

  /** One pass adds `o` once to the list of (tag, ty) and leaves every other list alone. */
  lemma AddOneObservers<T>(t: Table<T>, o: T, tag: string, ty: ConditionType, g: string, ty': ConditionType)
    ensures ObserversOf(AddOne(t, o, tag, ty), g, ty') ==
      if g == tag && ty' == ty && o !in ObserversOf(t, g, ty') then ObserversOf(t, g, ty') + [o]
      else ObserversOf(t, g, ty')
  {
  }

  /**
   * After `addRowObservers` the observer is registered, exactly once appended, under every
   * tag it depends on; every other list of the table is as before.
   */
  lemma {:induction false} AddAllObservers<T>(t: Table<T>, o: T, tags: seq<string>, ty: ConditionType,
                                               g: string, ty': ConditionType)
    ensures ObserversOf(AddAll(t, o, tags, ty), g, ty') ==
      if g in tags && ty' == ty && o !in ObserversOf(t, g, ty') then ObserversOf(t, g, ty') + [o]
      else ObserversOf(t, g, ty')
  {
    if tags != [] {
      var init := tags[..|tags| - 1];
      AddAllObservers(t, o, init, ty, g, ty');
      AddOneObservers(AddAll(t, o, init, ty), o, tags[|tags| - 1], ty, g, ty');
      assert g in tags <==> g in init || g == tags[|tags| - 1] by {
        assert tags == init + [tags[|tags| - 1]];
      }
    }
  }

  /** No list of the table holds an observer twice. */
  ghost predicate NoDuplicates<T>(t: Table<T>) {
    forall g, ty :: Distinct(ObserversOf(t, g, ty))
  }

  /** Adding observers keeps every list free of duplicates. */
  lemma AddAllNoDuplicates<T>(t: Table<T>, o: T, tags: seq<string>, ty: ConditionType)
    requires NoDuplicates(t)
    ensures NoDuplicates(AddAll(t, o, tags, ty))
    ensures forall g :: g in tags ==> o in ObserversOf(AddAll(t, o, tags, ty), g, ty)
  {
    forall g, ty' ensures Distinct(ObserversOf(AddAll(t, o, tags, ty), g, ty')) {
      AddAllObservers(t, o, tags, ty, g, ty');
    }
    forall g | g in tags ensures o in ObserversOf(AddAll(t, o, tags, ty), g, ty) {
      AddAllObservers(t, o, tags, ty, g, ty);
    }
  }

  /**
   * The loop of `removeRowObservers` as written (Form.swift:277-282): it removes the
   * observer from `var arr`, a local copy of the list, and never stores the copy back, so
   * the table is left as it was.
   */
  function RemoveAllAsWritten<T(==)>(t: Table<T>, o: T, tags: seq<string>, ty: ConditionType): Table<T>
  {
    if tags == [] then t else RemoveAllAsWritten(t, o, tags[..|tags| - 1], ty)
  }

  /** As written, the loop leaves the whole table as it was. */
  lemma {:induction false} RemoveAllAsWrittenIsIdentity<T>(t: Table<T>, o: T, tags: seq<string>, ty: ConditionType)
    ensures RemoveAllAsWritten(t, o, tags, ty) == t
  {
    if tags != [] {
      RemoveAllAsWrittenIsIdentity(t, o, tags[..|tags| - 1], ty);
    }
  }

  /** As written, an observer that is removed stays registered under its tags. */
  lemma RemoveAllAsWrittenKeepsObserver<T>(t: Table<T>, o: T, tags: seq<string>, ty: ConditionType, g: string)
    requires g in tags && o in ObserversOf(t, g, ty)
    ensures o in ObserversOf(RemoveAllAsWritten(t, o, tags, ty), g, ty)
  {
    RemoveAllAsWrittenIsIdentity(t, o, tags, ty);
  }

  /** The evidently intended pass: drop the first occurrence and store the list back. */
  function RemoveOne<T(==)>(t: Table<T>, o: T, tag: string, ty: ConditionType): (r: Table<T>)
    ensures forall g :: g != tag ==> (g in r <==> g in t) && (g in t ==> r[g] == t[g])
  {
    if tag in t && ty in t[tag] && o in t[tag][ty] then
      t[tag := t[tag][ty := RemoveAt(t[tag][ty], IndexOf(t[tag][ty], o))]]
    else t
  }

  /** The corrected `removeRowObservers`. */
  function RemoveAll<T(==)>(t: Table<T>, o: T, tags: seq<string>, ty: ConditionType): Table<T>
  {
    if tags == [] then t else RemoveOne(RemoveAll(t, o, tags[..|tags| - 1], ty), o, tags[|tags| - 1], ty)
  }

  lemma RemoveOneObservers<T>(t: Table<T>, o: T, tag: string, ty: ConditionType, g: string, ty': ConditionType)
    requires Distinct(ObserversOf(t, g, ty'))
    ensures ObserversOf(RemoveOne(t, o, tag, ty), g, ty') ==
      if g == tag && ty' == ty then Without(ObserversOf(t, g, ty'), o) else ObserversOf(t, g, ty')
  {
    if g == tag && ty' == ty {
      var l := ObserversOf(t, g, ty');
      if o in l {
        WithoutAsRemoveAt(l, o);
      } else {
        WithoutMissing(l, o);
      }
    }
  }

  /**
   * After the corrected `removeRowObservers` the observer is gone from the list of every tag
   * it named, the rest of each of those lists is kept in order, and every other list of the
   * table is unchanged.
   */
  lemma {:induction false} RemoveAllObservers<T>(t: Table<T>, o: T, tags: seq<string>, ty: ConditionType,
                                                  g: string, ty': ConditionType)
    requires Distinct(ObserversOf(t, g, ty'))
    ensures ObserversOf(RemoveAll(t, o, tags, ty), g, ty') ==
      if g in tags && ty' == ty then Without(ObserversOf(t, g, ty'), o) else ObserversOf(t, g, ty')
  {
    if tags != [] {
      var init := tags[..|tags| - 1];
      var last := tags[|tags| - 1];
      RemoveAllObservers(t, o, init, ty, g, ty');
      var mid := RemoveAll(t, o, init, ty);
      assert Distinct(ObserversOf(mid, g, ty')) by {
        WithoutDistinct(ObserversOf(t, g, ty'), o);
      }
      RemoveOneObservers(mid, o, last, ty, g, ty');
      assert g in tags <==> g in init || g == last by {
        assert tags == init + [last];
      }
      if g in init && g == last && ty' == ty {
        WithoutDistinct(ObserversOf(t, g, ty'), o);
        WithoutMissing(Without(ObserversOf(t, g, ty'), o), o);
      }
    }
  }

  /**
   * Registering an observer that was not registered and removing it again (corrected) gives
   * back every list of the table.
   */
  lemma AddThenRemove<T>(t: Table<T>, o: T, tags: seq<string>, ty: ConditionType, g: string, ty': ConditionType)
    requires NoDuplicates(t)
    requires o !in ObserversOf(t, g, ty')
    ensures ObserversOf(RemoveAll(AddAll(t, o, tags, ty), o, tags, ty), g, ty') == ObserversOf(t, g, ty')
  {
    var added := AddAll(t, o, tags, ty);
    AddAllNoDuplicates(t, o, tags, ty);
    AddAllObservers(t, o, tags, ty, g, ty');
    RemoveAllObservers(added, o, tags, ty, g, ty');
    var l := ObserversOf(t, g, ty');
    if g in tags && ty' == ty {
      WithoutAppend(l, o);
    } else {
      WithoutMissing(l, o);
    }
  }
}
