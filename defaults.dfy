/** The persisted document and the merge that fills in fields a saved file
    lacks.  A JSON value is modelled as a small datatype; numbers are
    integers, and key order of objects is not represented. */
module Defaults {
  import opened Wrappers

  datatype Json =
    | Null
    | Bool(b: bool)
    | Num(n: int)
    | Str(s: string)
    | Arr(items: seq<Json>)
    | Obj(fields: map<string, Json>)

  /** Both sides hold a dictionary under `k`: the only case that recurses. */
  predicate BothObjects(d: map<string, Json>, l: map<string, Json>, k: string) {
    k in d && k in l && d[k].Obj? && l[k].Obj?
  }

  /** `r` keeps every default the loaded document `l` does not override:
      a default key missing from `l` keeps its default value, and where both
      sides hold dictionaries the same holds one level down, at any depth. */
  predicate KeepsDefaults(d: map<string, Json>, l: map<string, Json>, r: map<string, Json>)
    decreases Obj(d)
  {
    forall k :: k in d ==>
      k in r &&
      (k !in l ==> r[k] == d[k]) &&
      (BothObjects(d, l, k) ==> r[k].Obj? && KeepsDefaults(d[k].fields, l[k].fields, r[k].fields))
  }

  /** Recursive dictionary merge: start from the defaults, then let every
      loaded entry win, merging recursively where both sides are objects. */
  function Merge(d: map<string, Json>, l: map<string, Json>): (r: map<string, Json>)
    decreases Obj(l)
    ensures r.Keys == d.Keys + l.Keys
    ensures forall k :: k in d && k !in l ==> r[k] == d[k]
    ensures forall k :: k in l && !BothObjects(d, l, k) ==> r[k] == l[k]
    ensures forall k :: BothObjects(d, l, k) ==>
              r[k].Obj? && r[k].fields.Keys == d[k].fields.Keys + l[k].fields.Keys
    ensures forall k :: BothObjects(d, l, k) ==> r[k] == Obj(Merge(d[k].fields, l[k].fields))
    ensures KeepsDefaults(d, l, r)
  {
    map k | k in d.Keys + l.Keys ::
      if BothObjects(d, l, k) then Obj(Merge(d[k].fields, l[k].fields))
      else if k in l then l[k]
      else d[k]
  }

  /** `r` keeps everything `l` says: each non-object value of `l` sits
      unchanged at the same path of `r`, and each object of `l` is again
      kept inside an object of `r`. */
  predicate Keeps(l: map<string, Json>, r: map<string, Json>)
    decreases Obj(l)
  {
    forall k :: k in l ==>
      k in r &&
      (l[k].Obj? ==> r[k].Obj? && Keeps(l[k].fields, r[k].fields)) &&
      (!l[k].Obj? ==> r[k] == l[k])
  }

  lemma {:induction false} KeepsSelf(m: map<string, Json>)
    decreases Obj(m)
    ensures Keeps(m, m)
  {
    forall k | k in m && m[k].Obj? ensures Keeps(m[k].fields, m[k].fields) {
      KeepsSelf(m[k].fields);
    }
  }

  /** No loaded value is lost by the merge. */
  lemma {:induction false} MergeKeepsLoaded(d: map<string, Json>, l: map<string, Json>)
    decreases Obj(l)
    ensures Keeps(l, Merge(d, l))
  {
    var r := Merge(d, l);
    forall k | k in l && l[k].Obj? ensures r[k].Obj? && Keeps(l[k].fields, r[k].fields) {
      if BothObjects(d, l, k) {
        MergeKeepsLoaded(d[k].fields, l[k].fields);
      } else {
        KeepsSelf(l[k].fields);
      }
    }
  }

  /** No default key is lost by the merge either, at any depth. */
  predicate HasKeys(d: map<string, Json>, r: map<string, Json>)
    decreases Obj(d)
  {
    forall k :: k in d ==>
      k in r && (d[k].Obj? && r[k].Obj? ==> HasKeys(d[k].fields, r[k].fields))
  }

  lemma {:induction false} HasKeysSelf(m: map<string, Json>)
    decreases Obj(m)
    ensures HasKeys(m, m)
  {
    forall k | k in m && m[k].Obj? ensures HasKeys(m[k].fields, m[k].fields) {
      HasKeysSelf(m[k].fields);
    }
  }

  lemma {:induction false} MergeKeepsDefaultKeys(d: map<string, Json>, l: map<string, Json>)
    decreases Obj(l)
    ensures HasKeys(d, Merge(d, l))
  {
    var r := Merge(d, l);
    forall k | k in d && d[k].Obj? && r[k].Obj? ensures HasKeys(d[k].fields, r[k].fields) {
      if BothObjects(d, l, k) {
        MergeKeepsDefaultKeys(d[k].fields, l[k].fields);
      } else if k !in l {
        HasKeysSelf(d[k].fields);
      }
    }
  }

  /** A file with nothing in it yields exactly the defaults. */
  lemma MergeNothingLoaded(d: map<string, Json>)
    ensures Merge(d, map[]) == d
  {
  }

  /** With no defaults the loaded document comes back unchanged. */
  lemma {:induction false} MergeNoDefaults(l: map<string, Json>)
    ensures Merge(map[], l) == l
  {
  }

  /** Merging a document into itself changes nothing. */
  lemma {:induction false} MergeSelf(m: map<string, Json>)
    decreases Obj(m)
    ensures Merge(m, m) == m
  {
    var r := Merge(m, m);
    forall k | k in m ensures r[k] == m[k] {
      if BothObjects(m, m, k) {
        MergeSelf(m[k].fields);
      }
    }
  }

  /** Saving the merged document and loading it again gives the same
      document: the merge is idempotent in its loaded argument. */
  lemma {:induction false} MergeIdempotent(d: map<string, Json>, l: map<string, Json>)
    decreases Obj(l)
    ensures Merge(d, Merge(d, l)) == Merge(d, l)
  {
    var m := Merge(d, l);
    var r := Merge(d, m);
    forall k | k in m ensures r[k] == m[k] {
      if BothObjects(d, m, k) {
        if BothObjects(d, l, k) {
          MergeIdempotent(d[k].fields, l[k].fields);
        } else if k !in l {
          MergeSelf(d[k].fields);
        }
      }
    }
  }

  /** Loading at start-up: no readable file (`None`), or a file whose top
      level is not a dictionary, gives the defaults; otherwise the merge. */
  function Load(defaults: map<string, Json>, file: Option<Json>): (r: map<string, Json>)
    ensures file.None? ==> r == defaults
    ensures file.Some? && !file.value.Obj? ==> r == defaults
    ensures file.Some? && file.value.Obj? ==> Keeps(file.value.fields, r) && HasKeys(defaults, r)
    ensures file.Some? && file.value.Obj? ==> KeepsDefaults(defaults, file.value.fields, r)
  {
    match file
    case None => defaults
    case Some(Obj(fields)) =>
      MergeKeepsLoaded(defaults, fields);
      MergeKeepsDefaultKeys(defaults, fields);
      Merge(defaults, fields)
    case Some(_) => defaults
  }

  /** The settings defaults of a fresh installation. */
  const DefaultSettings: map<string, Json> := map[
    "theme" := Str("dark"),
    "sounds" := Bool(true),
    "focus_duration" := Num(25),
    "short_break" := Num(5),
    "long_break" := Num(15),
    "pomodoro_cycles" := Num(4),
    "notifications" := Bool(true),
    "auto_start_breaks" := Bool(true),
    "auto_start_pomodoros" := Bool(true)
  ]

  /** A file saved before `auto_start_breaks` existed picks up its default,
      while the user's own focus length survives. */
  lemma OldSettingsFileExample()
    ensures var r := Merge(DefaultSettings, map["focus_duration" := Num(45)]);
      r["focus_duration"] == Num(45) && r["auto_start_breaks"] == Bool(true) &&
      r.Keys == DefaultSettings.Keys
  {
  }
}
