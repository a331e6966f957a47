/** Seeding the store with the default courses on first load: each default
    whose catalog code no stored course has is added, so seeding again adds
    nothing. */
module Seeding {
  import opened Sequences
  import opened Entities
  import opened Store

  /** The courses the overview seeds when they are missing. */
  const DefaultCourses: seq<CourseData> := [
    CourseData("CYBERSECURITY THREATS AND MITIGATION", "COMPSCI 9851 001", "2025 Winter Graduate", "2026-05-01"),
    CourseData("MACHINE LEARNING", "COMPSCI 9860 001", "2025 Winter Graduate", "2026-05-01"),
    CourseData("DEPENDABLE ARTIFICIAL INTELLIGENCE SYSTEMS", "COMPSCI 9874 001", "2025 Winter Graduate", "2026-05-01")
  ]

  function DataCode(d: CourseData): string { d.code }

  /** The catalog codes of the given courses. */
  function Codes(cs: seq<Course>): set<string> {
    set c | c in cs :: c.code
  }

  /** The defaults to add: those whose code matches no existing course's code.
      Name, term and end date play no part. */
  function ToSeed(defaults: seq<CourseData>, existing: seq<Course>): (r: seq<CourseData>)
    ensures forall j :: 0 <= j < |r| ==>
      r[j] in defaults && forall k :: 0 <= k < |existing| ==> existing[k].code != r[j].code
    ensures forall j :: 0 <= j < |defaults| ==>
      (forall k :: 0 <= k < |existing| ==> existing[k].code != defaults[j].code) ==> defaults[j] in r
  {
    var r := Drop(defaults, DataCode, Codes(existing));
    assert forall j :: 0 <= j < |defaults| ==>
      (forall k :: 0 <= k < |existing| ==> existing[k].code != defaults[j].code) ==>
      DataCode(defaults[j]) !in Codes(existing);
    r
  }

  /** The records `addCourse` creates for `ds`, one after another, when the
      id supply starts at `first`. */
  function WithIds(ds: seq<CourseData>, first: Id): (r: seq<Course>)
    ensures |r| == |ds|
    ensures forall j :: 0 <= j < |ds| ==> r[j] == ds[j].WithId(first + j)
  {
    if ds == [] then []
    else WithIds(ds[..|ds| - 1], first) + [ds[|ds| - 1].WithId(first + |ds| - 1)]
  }

  lemma WithIdsSnoc(ds: seq<CourseData>, i: nat, first: Id)
    requires i < |ds|
    ensures WithIds(ds[..i + 1], first) == WithIds(ds[..i], first) + [ds[i].WithId(first + i)]
  {
    assert ds[..i + 1][..i] == ds[..i];
  }

  /** One more step of adding `ds` in order appends the next record. */
  lemma SeedStep(base: seq<Course>, ds: seq<CourseData>, i: nat, first: Id)
    requires i < |ds|
    ensures base + WithIds(ds[..i + 1], first) == base + WithIds(ds[..i], first) + [ds[i].WithId(first + i)]
  {
    WithIdsSnoc(ds, i, first);
  }

  /** The course list after seeding `existing` with `defaults`. */
  function Seeded(defaults: seq<CourseData>, existing: seq<Course>, first: Id): (r: seq<Course>)
    ensures |existing| <= |r| <= |existing| + |defaults|
    ensures r[..|existing|] == existing
  {
    existing + WithIds(ToSeed(defaults, existing), first)
  }

  /** On a store with no courses every default is added, in order, with
      consecutive ids; for the built-in list that is all three courses. */
  lemma SeedEmptyStore(defaults: seq<CourseData>, first: Id)
    ensures Seeded(defaults, [], first) == WithIds(defaults, first)
    ensures |Seeded(DefaultCourses, [], first)| == 3
  {
    assert Codes([]) == {};
    DropNone(defaults, DataCode, {});
    assert [] + WithIds(defaults, first) == WithIds(defaults, first);
    DropNone(DefaultCourses, DataCode, {});
  }

  /** After seeding, every default code is among the stored courses. */
  lemma SeededCoversDefaults(defaults: seq<CourseData>, existing: seq<Course>, first: Id)
    ensures forall j :: 0 <= j < |defaults| ==> defaults[j].code in Codes(Seeded(defaults, existing, first))
  {
    var added := ToSeed(defaults, existing);
    var s := Seeded(defaults, existing, first);
    forall j | 0 <= j < |defaults| ensures defaults[j].code in Codes(s) {
      if k :| 0 <= k < |existing| && existing[k].code == defaults[j].code {
        assert s[k] == existing[k];
      } else {
        var m :| 0 <= m < |added| && added[m] == defaults[j];
        assert s[|existing| + m] == added[m].WithId(first + m);
      }
    }
  }

  /** Seeding twice leaves the same course list as seeding once, whatever
      ids the second run would have handed out. */
  lemma SeedIdempotent(defaults: seq<CourseData>, existing: seq<Course>, first: Id, again: Id)
    ensures Seeded(defaults, Seeded(defaults, existing, first), again) == Seeded(defaults, existing, first)
  {
    var s := Seeded(defaults, existing, first);
    SeededCoversDefaults(defaults, existing, first);
    DropAll(defaults, DataCode, Codes(s));
    assert ToSeed(defaults, s) == [];
    assert s + [] == s;
  }

  /** Seeding only appends, and never a course whose code was already stored. */
  lemma SeededAddsOnlyNewCodes(defaults: seq<CourseData>, existing: seq<Course>, first: Id)
    ensures Seeded(defaults, existing, first)[..|existing|] == existing
    ensures forall j, k :: |existing| <= j < |Seeded(defaults, existing, first)| && 0 <= k < |existing| ==>
      Seeded(defaults, existing, first)[j].code != existing[k].code
  {
    var s := Seeded(defaults, existing, first);
    var added := ToSeed(defaults, existing);
    assert s[..|existing|] == existing;
    forall j, k | |existing| <= j < |s| && 0 <= k < |existing| ensures s[j].code != existing[k].code {
      assert s[j] == added[j - |existing|].WithId(first + j - |existing|);
    }
  }

  /** The number of courses seeding adds is the number of defaults whose code
      is absent: all defaults but those whose code is already stored. */
  lemma SeedCount(defaults: seq<CourseData>, existing: seq<Course>, first: Id)
    ensures |Seeded(defaults, existing, first)| == |existing| + |defaults| - |Keep(defaults, DataCode, Codes(existing))|
  {
    KeepDropPartition(defaults, DataCode, Codes(existing));
    assert |multiset(Keep(defaults, DataCode, Codes(existing)))| + |multiset(ToSeed(defaults, existing))|
      == |multiset(defaults)|;
  }

  /** Seeds `store` with the default courses. */
  method SeedCourses(store: LocalStorage)
    requires store.Valid()
    modifies store
    ensures store.Valid()
    ensures store.nextId == old(store.nextId) + |ToSeed(DefaultCourses, old(store.courses))|
    ensures store.courses ==
      if store.available then Seeded(DefaultCourses, old(store.courses), old(store.nextId))
      else old(store.courses)
    ensures store.available ==> old(store.courses) == store.courses[..|old(store.courses)|]
    ensures store.available ==>
      forall j :: 0 <= j < |DefaultCourses| ==> DefaultCourses[j].code in Codes(store.courses)
    ensures store.coursework == old(store.coursework)
  {
    ghost var before, first := store.courses, store.nextId;
    SeedWith(store, DefaultCourses);
    if store.available {
      SeededAddsOnlyNewCodes(DefaultCourses, before, first);
      SeededCoversDefaults(DefaultCourses, before, first);
    }
  }

  /** Adds to `store`, one by one, each of `defaults` whose code no stored
      course has. */
  method SeedWith(store: LocalStorage, defaults: seq<CourseData>)
    requires store.Valid()
    modifies store
    ensures store.Valid()
    ensures store.nextId == old(store.nextId) + |ToSeed(defaults, old(store.courses))|
    ensures store.courses ==
      if store.available then Seeded(defaults, old(store.courses), old(store.nextId))
      else old(store.courses)
    ensures store.coursework == old(store.coursework)
  {
    var existingCourses := store.GetCourses();
    var newCourses := ToSeed(defaults, existingCourses);
    AddEach(store, newCourses);
  }

  /** Adds each of `ds` to `store` in order; they receive consecutive ids. */
  method AddEach(store: LocalStorage, ds: seq<CourseData>)
    requires store.Valid()
    modifies store
    ensures store.Valid()
    ensures store.nextId == old(store.nextId) + |ds|
    ensures store.courses ==
      if store.available then old(store.courses) + WithIds(ds, old(store.nextId))
      else old(store.courses)
    ensures store.coursework == old(store.coursework)
  {
    ghost var first := store.nextId;
    var i := 0;
    while i < |ds|
      invariant 0 <= i <= |ds|
      invariant store.Valid()
      invariant store.nextId == first + i
      invariant store.available ==> store.courses == old(store.courses) + WithIds(ds[..i], first)
      invariant !store.available ==> store.courses == old(store.courses)
      invariant store.coursework == old(store.coursework)
    {
      var added := store.AddCourse(ds[i]);
      SeedStep(old(store.courses), ds, i, first);
      i := i + 1;
    }
    assert ds[..i] == ds;
  }
}
