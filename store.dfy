/** The persistence store: one object holding the two persisted arrays,
    "courses" and "coursework", with create, replace and delete operations
    that read the whole array, change it and write it back. */
module Store {
  import opened Sequences
  import opened Entities

  class LocalStorage {
    /** Whether a durable medium is present. Without one every read yields
        nothing and every write is dropped. */
    const available: bool
    /** The persisted "courses" array. */
    var courses: seq<Course>
    /** The persisted "coursework" array. */
    var coursework: seq<Coursework>
    /** The fresh-id supply: the id the next creation receives. */
    var nextId: nat

    /** No stored record carries an id the supply has yet to hand out, and
        without a medium nothing is stored. */
    ghost predicate Valid()
      reads this
    {
      && AllBelow(courses, CourseKey, nextId)
      && AllBelow(coursework, CourseworkKey, nextId)
      && (!available ==> courses == [] && coursework == [])
    }

    /** Ids are unique within each collection. */
    ghost predicate UniqueIds()
      reads this
    {
      UniqueKeys(courses, CourseKey) && UniqueKeys(coursework, CourseworkKey)
    }

    /** Every coursework item names a course that is present. */
    ghost predicate ReferencesResolve()
      reads this
    {
      Resolves(courses, coursework)
    }

    /** A store over the medium's current contents; without a medium there
        are none. */
    constructor (available: bool, storedCourses: seq<Course>, storedCoursework: seq<Coursework>)
      ensures Valid()
      ensures this.available == available
      ensures courses == (if available then storedCourses else [])
      ensures coursework == (if available then storedCoursework else [])
    {
      this.available := available;
      courses := if available then storedCourses else [];
      coursework := if available then storedCoursework else [];
      nextId := if available then Max(Bound(storedCourses, CourseKey), Bound(storedCoursework, CourseworkKey)) else 0;
      new;
      BoundAbove(courses, CourseKey);
      BoundAbove(coursework, CourseworkKey);
    }

    method GetCourses() returns (r: seq<Course>)
      ensures available ==> r == courses
      ensures !available ==> r == []
    {
      if !available { return []; }
      r := courses;
    }

    /** Writes the whole course array. The supply moves past any id the
        written records carry. */
    method SetCourses(s: seq<Course>)
      requires Valid()
      modifies this`courses, this`nextId
      ensures Valid()
      ensures courses == if available then s else old(courses)
      ensures nextId == if available then Max(old(nextId), Bound(s, CourseKey)) else old(nextId)
    {
      if !available { return; }
      courses := s;
      nextId := Max(nextId, Bound(s, CourseKey));
      BoundAbove(s, CourseKey);
    }

    method GetCoursework() returns (r: seq<Coursework>)
      ensures available ==> r == coursework
      ensures !available ==> r == []
    {
      if !available { return []; }
      r := coursework;
    }

    /** Writes the whole coursework array. The supply moves past any id the
        written records carry. */
    method SetCoursework(s: seq<Coursework>)
      requires Valid()
      modifies this`coursework, this`nextId
      ensures Valid()
      ensures coursework == if available then s else old(coursework)
      ensures nextId == if available then Max(old(nextId), Bound(s, CourseworkKey)) else old(nextId)
    {
      if !available { return; }
      coursework := s;
      nextId := Max(nextId, Bound(s, CourseworkKey));
      BoundAbove(s, CourseworkKey);
    }

    /** Hands out an id no stored record carries and none handed out before. */
    method GenerateId() returns (id: Id)
      requires Valid()
      modifies this`nextId
      ensures Valid()
      ensures id == old(nextId) && nextId == id + 1
      ensures forall j :: 0 <= j < |courses| ==> courses[j].id != id
      ensures forall j :: 0 <= j < |coursework| ==> coursework[j].id != id
    {
      id := nextId;
      nextId := id + 1;
    }

    method AddCourse(data: CourseData) returns (r: Course)
      requires Valid()
      modifies this`courses, this`nextId
      ensures Valid()
      ensures r == data.WithId(old(nextId)) && nextId == old(nextId) + 1
      ensures forall j :: 0 <= j < |old(courses)| ==> old(courses)[j].id != r.id
      ensures courses == if available then old(courses) + [r] else old(courses)
      ensures coursework == old(coursework)
      ensures old(UniqueIds()) ==> UniqueIds()
      ensures old(ReferencesResolve()) ==> ReferencesResolve()
    {
      var all := GetCourses();
      var id := GenerateId();
      r := data.WithId(id);
      all := all + [r];
      if available {
        AllBelowAppend(old(courses), r, CourseKey, id + 1);
        BoundLeast(all, CourseKey, id + 1);
      }
      SetCourses(all);
      if available {
        if old(UniqueIds()) {
          UniqueAppendFresh(old(courses), r, CourseKey);
        }
        if old(ReferencesResolve()) {
          ResolvesAfterCourseAdded(old(courses), r, coursework);
        }
      }
    }

    method UpdateCourse(c: Course)
      requires Valid()
      modifies this`courses, this`nextId
      ensures Valid() && nextId == old(nextId)
      ensures |courses| == |old(courses)|
      ensures available && FindIndex(old(courses), CourseKey, c.id).Some? ==>
        courses == old(courses)[FindIndex(old(courses), CourseKey, c.id).value := c]
      ensures !available || FindIndex(old(courses), CourseKey, c.id).None? ==>
        courses == old(courses)
      ensures coursework == old(coursework)
      ensures old(UniqueIds()) ==> UniqueIds()
      ensures old(ReferencesResolve()) ==> ReferencesResolve()
    {
      var all := GetCourses();
      var index := FindIndex(all, CourseKey, c.id);
      if index.Some? {
        all := all[index.value := c];
        assert AllBelow(all, CourseKey, nextId) by {
          assert forall j :: 0 <= j < |all| ==> all[j].id == old(courses)[j].id;
        }
        BoundLeast(all, CourseKey, nextId);
        SetCourses(all);
        if old(UniqueIds()) {
          UniqueUpdate(old(courses), index.value, c, CourseKey);
        }
        if old(ReferencesResolve()) {
          ResolvesAfterCourseReplaced(old(courses), index.value, c, coursework);
        }
      }
    }

    /** Removes the course with this id and, with it, every coursework item
        that belongs to it. */
    method DeleteCourse(id: Id)
      requires Valid()
      modifies this`courses, this`coursework, this`nextId
      ensures Valid() && nextId == old(nextId)
      ensures courses == if available then Drop(old(courses), CourseKey, {id}) else old(courses)
      ensures coursework == if available then Drop(old(coursework), OwnerKey, {id}) else old(coursework)
      ensures available ==> forall j :: 0 <= j < |courses| ==> courses[j].id != id
      ensures available ==> forall j :: 0 <= j < |coursework| ==> coursework[j].courseId != id
      ensures old(UniqueIds()) ==> UniqueIds()
      ensures old(ReferencesResolve()) ==> ReferencesResolve()
    {
      var all := GetCourses();
      var newCourses := Drop(all, CourseKey, {id});
      AllBelowDrop(all, CourseKey, CourseKey, {id}, nextId);
      BoundLeast(newCourses, CourseKey, nextId);
      SetCourses(newCourses);

      var allWork := GetCoursework();
      var newCoursework := Drop(allWork, OwnerKey, {id});
      AllBelowDrop(allWork, CourseworkKey, OwnerKey, {id}, nextId);
      BoundLeast(newCoursework, CourseworkKey, nextId);
      SetCoursework(newCoursework);

      if available {
        if old(UniqueIds()) {
          UniqueDrop(old(courses), CourseKey, CourseKey, {id});
          UniqueDrop(old(coursework), CourseworkKey, OwnerKey, {id});
        }
        if old(ReferencesResolve()) {
          ResolvesAfterCourseDeleted(old(courses), old(coursework), id);
        }
      }
    }

    /** Adds a coursework item. As in the application, nothing checks that its
        course exists; references stay resolved when it does. */
    method AddCoursework(data: CourseworkData) returns (r: Coursework)
      requires Valid()
      modifies this`coursework, this`nextId
      ensures Valid()
      ensures r == data.WithId(old(nextId)) && nextId == old(nextId) + 1
      ensures forall j :: 0 <= j < |old(coursework)| ==> old(coursework)[j].id != r.id
      ensures coursework == if available then old(coursework) + [r] else old(coursework)
      ensures courses == old(courses)
      ensures old(UniqueIds()) ==> UniqueIds()
      ensures old(ReferencesResolve()) && HasCourse(courses, data.courseId) ==> ReferencesResolve()
    {
      var all := GetCoursework();
      var id := GenerateId();
      r := data.WithId(id);
      all := all + [r];
      if available {
        AllBelowAppend(old(coursework), r, CourseworkKey, id + 1);
        BoundLeast(all, CourseworkKey, id + 1);
      }
      SetCoursework(all);
      if available {
        if old(UniqueIds()) {
          UniqueAppendFresh(old(coursework), r, CourseworkKey);
        }
        if old(ReferencesResolve()) && HasCourse(courses, data.courseId) {
          ResolvesAfterCourseworkAdded(courses, old(coursework), r);
        }
      }
    }

    method UpdateCoursework(w: Coursework)
      requires Valid()
      modifies this`coursework, this`nextId
      ensures Valid() && nextId == old(nextId)
      ensures |coursework| == |old(coursework)|
      ensures available && FindIndex(old(coursework), CourseworkKey, w.id).Some? ==>
        coursework == old(coursework)[FindIndex(old(coursework), CourseworkKey, w.id).value := w]
      ensures !available || FindIndex(old(coursework), CourseworkKey, w.id).None? ==>
        coursework == old(coursework)
      ensures courses == old(courses)
      ensures old(UniqueIds()) ==> UniqueIds()
      ensures old(ReferencesResolve()) && HasCourse(courses, w.courseId) ==> ReferencesResolve()
    {
      var all := GetCoursework();
      var index := FindIndex(all, CourseworkKey, w.id);
      if index.Some? {
        all := all[index.value := w];
        assert AllBelow(all, CourseworkKey, nextId) by {
          assert forall j :: 0 <= j < |all| ==> all[j].id == old(coursework)[j].id;
        }
        BoundLeast(all, CourseworkKey, nextId);
        SetCoursework(all);
        if old(UniqueIds()) {
          UniqueUpdate(old(coursework), index.value, w, CourseworkKey);
        }
        if old(ReferencesResolve()) && HasCourse(courses, w.courseId) {
          ResolvesAfterCourseworkReplaced(courses, old(coursework), index.value, w);
        }
      }
    }

    method DeleteCoursework(id: Id)
      requires Valid()
      modifies this`coursework, this`nextId
      ensures Valid() && nextId == old(nextId)
      ensures coursework == if available then Drop(old(coursework), CourseworkKey, {id}) else old(coursework)
      ensures courses == old(courses)
      ensures available ==> forall j :: 0 <= j < |coursework| ==> coursework[j].id != id
      ensures old(UniqueIds()) ==> UniqueIds()
      ensures old(ReferencesResolve()) ==> ReferencesResolve()
    {
      var all := GetCoursework();
      var newCoursework := Drop(all, CourseworkKey, {id});
      AllBelowDrop(all, CourseworkKey, CourseworkKey, {id}, nextId);
      BoundLeast(newCoursework, CourseworkKey, nextId);
      SetCoursework(newCoursework);
      if available && old(UniqueIds()) {
        UniqueDrop(old(coursework), CourseworkKey, CourseworkKey, {id});
      }
      if available && old(ReferencesResolve()) {
        ResolvesAfterCourseworkDeleted(courses, old(coursework), id);
      }
    }
  }

  /** Every coursework item names a course present in `courses`. */
  ghost predicate Resolves(courses: seq<Course>, coursework: seq<Coursework>) {
    forall j :: 0 <= j < |coursework| ==> HasCourse(courses, coursework[j].courseId)
  }

  ghost predicate HasCourse(courses: seq<Course>, id: Id) {
    exists k :: 0 <= k < |courses| && courses[k].id == id
  }

  lemma ResolvesAfterCourseAdded(courses: seq<Course>, c: Course, coursework: seq<Coursework>)
    requires Resolves(courses, coursework)
    ensures Resolves(courses + [c], coursework)
  {
    forall j | 0 <= j < |coursework| ensures HasCourse(courses + [c], coursework[j].courseId) {
      var k :| 0 <= k < |courses| && courses[k].id == coursework[j].courseId;
      assert (courses + [c])[k] == courses[k];
    }
  }

  lemma ResolvesAfterCourseReplaced(courses: seq<Course>, i: nat, c: Course, coursework: seq<Coursework>)
    requires Resolves(courses, coursework)
    requires i < |courses| && courses[i].id == c.id
    ensures Resolves(courses[i := c], coursework)
  {
    forall j | 0 <= j < |coursework| ensures HasCourse(courses[i := c], coursework[j].courseId) {
      var k :| 0 <= k < |courses| && courses[k].id == coursework[j].courseId;
      assert courses[i := c][k].id == courses[k].id;
    }
  }

  /** The cascade leaves no dangling reference behind. */
  lemma ResolvesAfterCourseDeleted(courses: seq<Course>, coursework: seq<Coursework>, id: Id)
    requires Resolves(courses, coursework)
    ensures Resolves(Drop(courses, CourseKey, {id}), Drop(coursework, OwnerKey, {id}))
  {
    var cs := Drop(courses, CourseKey, {id});
    var ws := Drop(coursework, OwnerKey, {id});
    forall j | 0 <= j < |ws| ensures HasCourse(cs, ws[j].courseId) {
      var m :| 0 <= m < |coursework| && coursework[m] == ws[j];
      var k :| 0 <= k < |courses| && courses[k].id == ws[j].courseId;
      var k' :| 0 <= k' < |cs| && cs[k'] == courses[k];
    }
  }

  lemma ResolvesAfterCourseworkAdded(courses: seq<Course>, coursework: seq<Coursework>, w: Coursework)
    requires Resolves(courses, coursework)
    requires HasCourse(courses, w.courseId)
    ensures Resolves(courses, coursework + [w])
  {
    forall j | 0 <= j < |coursework + [w]| ensures HasCourse(courses, (coursework + [w])[j].courseId) {
      if j < |coursework| { assert (coursework + [w])[j] == coursework[j]; }
    }
  }

  /** Replacing an item by one whose course exists keeps references resolved. */
  lemma ResolvesAfterCourseworkReplaced(courses: seq<Course>, coursework: seq<Coursework>, i: nat, w: Coursework)
    requires Resolves(courses, coursework)
    requires i < |coursework| && HasCourse(courses, w.courseId)
    ensures Resolves(courses, coursework[i := w])
  {
    var ws := coursework[i := w];
    forall j | 0 <= j < |ws| ensures HasCourse(courses, ws[j].courseId) {
      if j != i { assert ws[j] == coursework[j]; }
    }
  }

  lemma ResolvesAfterCourseworkDeleted(courses: seq<Course>, coursework: seq<Coursework>, id: Id)
    requires Resolves(courses, coursework)
    ensures Resolves(courses, Drop(coursework, CourseworkKey, {id}))
  {
    var ws := Drop(coursework, CourseworkKey, {id});
    forall j | 0 <= j < |ws| ensures HasCourse(courses, ws[j].courseId) {
      var m :| 0 <= m < |coursework| && coursework[m] == ws[j];
    }
  }
}
