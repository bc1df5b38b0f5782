/**
 * `merge_user_settings`: the plugin's `default` settings overlaid with the
 * user's `user` settings. Setting values other than the transformation table
 * are opaque (`V`); loading the settings file is left to the caller, which
 * passes the two loaded maps in.
 */
module SettingsMerge {
  import opened Options

  /**
   * One settings map, with its `transformations` table (transformation name
   * to entry, an entry mapping setting keys to values) split off from every
   * other top-level key. `transformations` is None when the key is absent.
   * The split is faithful when `others` has no `transformations` key
   * (`Split`); `Merge` keeps that invariant.
   */
  datatype Settings<V> = Settings(
    transformations: Option<map<string, map<string, V>>>,
    others: map<string, V>)

  /** The `transformations` key lives in its own field only. */
  predicate Split<V>(s: Settings<V>) {
    "transformations" !in s.others
  }

  /** Python's falsy dict: no key at all. */
  predicate IsEmpty<V>(s: Settings<V>) {
    s.transformations.None? && s.others == map[]
  }

  /**
   * The per-transformation merge: a name in both tables gets the default entry
   * updated key by key from the user's entry; a name in one table only keeps
   * that entry.
   */
  function MergeTransformations<V>(dt: map<string, map<string, V>>, ut: map<string, map<string, V>>): (r: map<string, map<string, V>>)
    ensures r.Keys == dt.Keys + ut.Keys
    ensures forall n | n in dt && n !in ut :: r[n] == dt[n]
    ensures forall n | n in ut && n !in dt :: r[n] == ut[n]
    ensures forall n | n in dt && n in ut :: r[n].Keys == dt[n].Keys + ut[n].Keys
    ensures forall n, k | n in dt && n in ut && k in ut[n] :: r[n][k] == ut[n][k]
    ensures forall n, k | n in dt && n in ut && k in dt[n] && k !in ut[n] :: r[n][k] == dt[n][k]
  {
    map n | n in dt.Keys + ut.Keys ::
      if n in ut then (if n in dt then dt[n] + ut[n] else ut[n]) else dt[n]
  }

  /**
   * `merge_user_settings`: with an empty user map the defaults come back
   * unchanged; otherwise the transformation tables are merged and every other
   * user key overrides the default.
   */
  function Merge<V>(d: Settings<V>, u: Settings<V>): (r: Settings<V>)
    ensures IsEmpty(u) ==> r == d
    ensures !IsEmpty(u) ==> r.transformations.Some?
    ensures !IsEmpty(u) ==> r.others.Keys == d.others.Keys + u.others.Keys
    ensures !IsEmpty(u) ==> forall key | key in u.others :: r.others[key] == u.others[key]
    ensures !IsEmpty(u) ==> forall key | key in d.others && key !in u.others :: r.others[key] == d.others[key]
    ensures Split(d) && Split(u) ==> Split(r)
  {
    if IsEmpty(u) then d
    else
      Settings(
        Some(MergeTransformations(d.transformations.GetOr(map[]), u.transformations.GetOr(map[]))),
        d.others + u.others)
  }

  /** Whatever the user map does not mention keeps its default value. */
  lemma MergeKeepsDefaults<V>(d: Settings<V>, u: Settings<V>)
    requires d.transformations.Some?
    ensures var r := Merge(d, u);
      && r.transformations.Some?
      && (forall n | n in d.transformations.value && (u.transformations.None? || n !in u.transformations.value)
            :: n in r.transformations.value && r.transformations.value[n] == d.transformations.value[n])
      && (forall key | key in d.others && key !in u.others :: key in r.others && r.others[key] == d.others[key])
  {
  }

  /** Applying the same user settings a second time changes nothing. */
  lemma MergeIdempotent<V>(d: Settings<V>, u: Settings<V>)
    ensures Merge(Merge(d, u), u) == Merge(d, u)
  {
    if !IsEmpty(u) {
      var once := Merge(d, u);
      var twice := Merge(once, u);
      var dt := d.transformations.GetOr(map[]);
      var ut := u.transformations.GetOr(map[]);
      var m1 := MergeTransformations(dt, ut);
      var m2 := MergeTransformations(m1, ut);
      forall n | n in m2 ensures n in m1 && m2[n] == m1[n] {
        if n in ut {
          assert m2[n] == m1[n] + ut[n];
          if n in dt {
            assert m1[n] == dt[n] + ut[n];
            assert dt[n] + ut[n] + ut[n] == dt[n] + ut[n];
          } else {
            assert ut[n] + ut[n] == ut[n];
          }
        }
      }
      assert m2 == m1;
      assert twice.others == once.others;
    }
  }
}
