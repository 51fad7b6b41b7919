/**
 * Pieces of the older single-file core that the split files do differently or not at all:
 * the table a form hands to its conditions, rebuilt from the tag registry on every call, and
 * the equality of postal addresses.
 */
module LegacyCore {
  import opened Wrappers
  import opened Conditions
  import opened Forms

  /**
   * `dictionaryValuesToEvaluatePredicate`: one entry per registered tag, holding that row's
   * value (`None` standing for `NSNull` when the row has none).
   */
  function DictionaryValuesToEvaluatePredicate(f: Form): (d: map<string, Option<Value>>)
    reads f, f.rowsByTag.Values
    ensures d.Keys == f.rowsByTag.Keys
    ensures forall t :: t in d ==> d[t] == f.rowsByTag[t].value
  {
    map t | t in f.rowsByTag :: f.rowsByTag[t].value
  }

  /** The stored value table agrees with the values of the registered rows. */
  ghost predicate ValuesInSync(f: Form)
    reads f, f.rowsByTag.Values
  {
    && f.tagToValues.Keys == f.rowsByTag.Keys
    && forall t :: t in f.rowsByTag ==> f.tagToValues[t] == f.rowsByTag[t].value
  }

  /**
   * Rebuilding the table from the registry gives the stored table exactly when the two agree:
   * the later files keep `tagToValues` instead of rebuilding it.
   */
  lemma RebuiltTableIsStored(f: Form)
    ensures DictionaryValuesToEvaluatePredicate(f) == f.tagToValues <==> ValuesInSync(f)
  {
    var d := DictionaryValuesToEvaluatePredicate(f);
    if d == f.tagToValues {
      assert d.Keys == f.tagToValues.Keys;
    }
  }

  /** `PostalAddress`: five optional fields. */
  datatype PostalAddress = PostalAddress(
    street: Option<string>, state: Option<string>, postalCode: Option<string>,
    city: Option<string>, country: Option<string>)

  /** `==` on postal addresses: field by field. */
  function PostalAddressEquals(l: PostalAddress, r: PostalAddress): (e: bool)
    ensures e <==> l == r
  {
    l.street == r.street && l.state == r.state && l.postalCode == r.postalCode && l.city == r.city && l.country == r.country
  }
}
