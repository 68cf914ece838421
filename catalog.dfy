/** The in-memory catalog of app.js: the course objects, the category
    table, the per-category lists and the flat list. It is built once at
    startup and afterwards changed only by the progress handler. */
module CourseCatalog {
  import opened Records
  import opened FileNames
  import Indexing

  /** A course object. The per-category lists and the flat list hold the
      same objects, so a change made through one is seen through the
      other. app.js never rewrites a field other than `progress` (the
      progress handler) and `nextLesson` (the linker), so the rest are
      constants. */
  class Course {
    const id: int
    const title: string
    const categoryId: int
    const categoryName: string
    var progress: int
    const icon: string
    const duration: nat
    var nextLesson: Option<int>

    constructor (r: CourseRecord)
      ensures View() == r
    {
      id, title, categoryId, categoryName := r.id, r.title, r.categoryId, r.categoryName;
      progress, icon, duration, nextLesson := r.progress, r.icon, r.duration, r.nextLesson;
    }

    /** The fields the handlers serialise, without the random display fields. */
    function View(): CourseRecord
      reads this
    {
      CourseRecord(id, title, categoryId, categoryName, progress, icon, duration, nextLesson)
    }
  }

  /** `cs` shows the records `rs`, position by position. */
  ghost predicate Shows(cs: seq<Course>, rs: seq<CourseRecord>)
    reads cs
  {
    |cs| == |rs| && forall k :: 0 <= k < |cs| ==> cs[k].View() == rs[k]
  }

  /** The lookup the handlers use on the flat list: the first course with
      that id. */
  function Find(cs: seq<Course>, id: int): (r: Option<Course>)
    ensures r.Some? ==> r.value.id == id
  {
    if cs == [] then None
    else if cs[0].id == id then Some(cs[0])
    else Find(cs[1..], id)
  }

  /** In a list numbered `first`, `first + 1`, ... the lookup finds id `i`
      at position `i - first`, and nothing outside that range. */
  lemma {:induction false} FindNumbered(cs: seq<Course>, first: int, id: int)
    requires forall k :: 0 <= k < |cs| ==> cs[k].id == first + k
    ensures Find(cs, id) == if first <= id < first + |cs| then Some(cs[id - first]) else None
  {
    if cs != [] && cs[0].id != id {
      FindNumbered(cs[1..], first + 1, id);
    }
  }

  /** The courses of `cs` in category `cid`, in their order in `cs`. */
  function OfCategory(cs: seq<Course>, cid: int): (r: seq<Course>)
    ensures |r| <= |cs|
  {
    if cs == [] then []
    else
      var last := cs[|cs| - 1];
      OfCategory(cs[..|cs| - 1], cid) + if last.categoryId == cid then [last] else []
  }

  /** The sublist holds exactly the courses of `cs` in category `cid`. */
  lemma {:induction false} OfCategoryMembers(cs: seq<Course>, cid: int)
    ensures forall c :: c in OfCategory(cs, cid) ==> c in cs && c.categoryId == cid
    ensures forall c :: c in cs && c.categoryId == cid ==> c in OfCategory(cs, cid)
  {
    if cs != [] {
      var init := cs[..|cs| - 1];
      OfCategoryMembers(init, cid);
      assert cs == init + [cs[|cs| - 1]];
    }
  }

  lemma {:induction false} OfCategoryAppend(a: seq<Course>, b: seq<Course>, cid: int)
    ensures OfCategory(a + b, cid) == OfCategory(a, cid) + OfCategory(b, cid)
  {
    if b == [] {
      assert a + b == a;
    } else {
      var init, last := b[..|b| - 1], b[|b| - 1];
      assert (a + b)[..|a + b| - 1] == a + init;
      OfCategoryAppend(a, init, cid);
    }
  }

  /** `coursesByCategory` as a map from the category ids 1..n. */
  ghost function ByCategory(cs: seq<Course>, n: nat): map<int, seq<Course>> {
    map cid | 1 <= cid <= n :: OfCategory(cs, cid)
  }

  /** The per-category lists 1..n concatenated in category order. */
  ghost function Flatten(byCategory: map<int, seq<Course>>, n: nat): seq<Course>
    requires forall cid :: 1 <= cid <= n ==> cid in byCategory
  {
    if n == 0 then [] else Flatten(byCategory, n - 1) + byCategory[n]
  }

  lemma {:induction false} FlattenIgnoresLater(byCategory: map<int, seq<Course>>, n: nat, cid: int, courses: seq<Course>)
    requires forall i :: 1 <= i <= n ==> i in byCategory
    requires cid > n
    ensures Flatten(byCategory[cid := courses], n) == Flatten(byCategory, n)
  {
    if n > 0 {
      FlattenIgnoresLater(byCategory, n - 1, cid, courses);
    }
  }

  /** `categoriesMap`, built from the category list: entries are added
      in order, a later one replacing an earlier one with the same id. */
  function CategoryMap(categories: seq<Category>): map<int, Category> {
    if categories == [] then map[]
    else
      var last := categories[|categories| - 1];
      CategoryMap(categories[..|categories| - 1])[last.id := last]
  }

  /** With categories numbered 1, 2, ... the map has exactly the keys
      1..n and maps each to its category. */
  lemma {:induction false} CategoryMapNumbered(categories: seq<Category>)
    requires forall j :: 0 <= j < |categories| ==> categories[j].id == j + 1
    ensures forall cid :: cid in CategoryMap(categories) <==> 1 <= cid <= |categories|
    ensures forall j :: 0 <= j < |categories| ==> CategoryMap(categories)[j + 1] == categories[j]
  {
    if categories != [] {
      CategoryMapNumbered(categories[..|categories| - 1]);
    }
  }

  /** The course names one of the categories and carries its name. */
  ghost predicate InCategory(c: Course, categories: seq<Category>) {
    1 <= c.categoryId <= |categories| && c.categoryName == categories[c.categoryId - 1].name
  }

  /** Every progress lies in 0..100. */
  ghost predicate ProgressInRange(cs: seq<Course>)
    reads cs
  {
    forall k :: 0 <= k < |cs| ==> 0 <= cs[k].progress <= 100
  }

  /** `cs` agrees with `rs` on the fields fixed at creation. */
  ghost predicate Describes(cs: seq<Course>, rs: seq<CourseRecord>) {
    |cs| == |rs| &&
    forall k :: 0 <= k < |cs| ==>
      cs[k].id == rs[k].id && cs[k].title == rs[k].title &&
      cs[k].categoryId == rs[k].categoryId && cs[k].categoryName == rs[k].categoryName &&
      cs[k].icon == rs[k].icon && cs[k].duration == rs[k].duration
  }

  /** Every course still has the progress and link it was created with. */
  ghost predicate Untouched(cs: seq<Course>)
    reads cs
  {
    forall k :: 0 <= k < |cs| ==> cs[k].progress == 0 && cs[k].nextLesson == None
  }

  lemma DescribesAppend(a: seq<Course>, b: seq<Course>, ra: seq<CourseRecord>, rb: seq<CourseRecord>)
    requires Describes(a, ra) && Describes(b, rb)
    ensures Describes(a + b, ra + rb)
  {
  }

  /** Showing a record is agreeing on the creation fields and on the two
      fields that change. */
  lemma ShowsByFields(cs: seq<Course>, rs: seq<CourseRecord>)
    ensures Shows(cs, rs) <==>
      Describes(cs, rs) &&
      forall k :: 0 <= k < |cs| ==> cs[k].progress == rs[k].progress && cs[k].nextLesson == rs[k].nextLesson
  {
  }

  /** Courses showing the first `j` indexed listings are numbered 1, 2, ...,
      start with progress 0, and each names one of the first `j`
      categories and carries its name. */
  lemma IndexedCourses(cs: seq<Course>, categories: seq<Category>, listings: seq<seq<FileEntry>>, j: nat)
    requires |listings| == |categories| && j <= |categories|
    requires forall i :: 0 <= i < |categories| ==> categories[i].id == i + 1
    requires Describes(cs, Indexing.IndexAll(categories[..j], listings[..j], 1))
    ensures forall k :: 0 <= k < |cs| ==>
      cs[k].id == k + 1 && 1 <= cs[k].categoryId <= j && InCategory(cs[k], categories)
  {
    var rs := Indexing.IndexAll(categories[..j], listings[..j], 1);
    Indexing.IndexAllIds(categories[..j], listings[..j], 1);
    Indexing.IndexAllFresh(categories[..j], listings[..j], 1);
    forall k | 0 <= k < |cs|
      ensures cs[k].id == k + 1 && 1 <= cs[k].categoryId <= j && InCategory(cs[k], categories)
    {
      assert Indexing.FreshIn(rs[k], categories[..j]);
    }
  }

  /** One step of the indexing loop: the courses read from listing `j`,
      numbered on from the courses so far, extend what the flat list shows
      to the first `j + 1` listings, and become the list of category
      `j + 1`, so that the per-category lists still partition the flat
      list. */
  lemma IndexCategoryStep(all: seq<Course>, byCategory: map<int, seq<Course>>, courses: seq<Course>,
                          categories: seq<Category>, listings: seq<seq<FileEntry>>, j: nat)
    requires |listings| == |categories| && j < |categories|
    requires forall i :: 0 <= i < |categories| ==> categories[i].id == i + 1
    requires Describes(all, Indexing.IndexAll(categories[..j], listings[..j], 1))
    requires Describes(courses, Indexing.IndexListing(listings[j], categories[j], |all| + 1))
    requires byCategory == ByCategory(all, j) && all == Flatten(byCategory, j)
    ensures Describes(all + courses, Indexing.IndexAll(categories[..j + 1], listings[..j + 1], 1))
    ensures ByCategory(all + courses, j + 1) == byCategory[j + 1 := courses]
    ensures all + courses == Flatten(byCategory[j + 1 := courses], j + 1)
  {
    var added := Indexing.IndexListing(listings[j], categories[j], |all| + 1);
    Indexing.IndexAllStep(categories, listings, j, 1);
    DescribesAppend(all, courses, Indexing.IndexAll(categories[..j], listings[..j], 1), added);
    Indexing.IndexListingFromPdfFiles(listings[j], categories[j], |all| + 1);
    assert forall k :: 0 <= k < |courses| ==> courses[k].categoryId == added[k].categoryId == j + 1;
    IndexedCourses(all, categories, listings, j);
    AddCategoryCourses(all, byCategory, courses, j);
  }

  /** Appending the courses of category j + 1 to a flat list of courses
      of categories 1..j extends its partition by one list. */
  lemma AddCategoryCourses(all: seq<Course>, byCategory: map<int, seq<Course>>, courses: seq<Course>, j: nat)
    requires forall k :: 0 <= k < |all| ==> 1 <= all[k].categoryId <= j
    requires forall k :: 0 <= k < |courses| ==> courses[k].categoryId == j + 1
    requires byCategory == ByCategory(all, j) && all == Flatten(byCategory, j)
    ensures ByCategory(all + courses, j + 1) == byCategory[j + 1 := courses]
    ensures all + courses == Flatten(byCategory[j + 1 := courses], j + 1)
  {
    forall cid | 1 <= cid <= j + 1
      ensures OfCategory(all + courses, cid) == byCategory[j + 1 := courses][cid]
    {
      OfCategoryAppend(all, courses, cid);
      if cid <= j {
        OfCategoryNone(courses, cid);
      } else {
        OfCategoryNone(all, cid);
        OfCategoryOnly(courses, cid);
      }
    }
    FlattenIgnoresLater(byCategory, j, j + 1, courses);
  }

  /** What `updateNextLessons` leaves behind: each course points at the
      id of the next course in the flat list, the last one at nothing. */
  ghost predicate Linked(cs: seq<Course>)
    reads cs
  {
    (forall k :: 0 <= k < |cs| - 1 ==> cs[k].nextLesson == Some(cs[k + 1].id)) &&
    (cs != [] ==> cs[|cs| - 1].nextLesson == None)
  }

  /** The link of one course of a linked list. */
  lemma LinkedAt(cs: seq<Course>, k: int)
    requires Linked(cs) && 0 <= k < |cs|
    ensures cs[k].nextLesson == if k + 1 < |cs| then Some(cs[k + 1].id) else None
  {
  }

  /** Courses that agree with `rs` on everything but the successor links,
      and are linked, show the linked records. */
  lemma LinkedShows(cs: seq<Course>, rs: seq<CourseRecord>)
    requires Describes(cs, rs)
    requires forall k :: 0 <= k < |cs| ==> cs[k].progress == rs[k].progress
    requires Linked(cs)
    ensures Shows(cs, Indexing.LinkRecords(rs))
  {
    var linked := Indexing.LinkRecords(rs);
    forall k | 0 <= k < |cs|
      ensures cs[k].View() == linked[k]
    {
      LinkedAt(cs, k);
      if k + 1 < |cs| {
        assert cs[k + 1].id == rs[k + 1].id;
      }
    }
  }

  /** The module-level state of app.js. */
  class Catalog {
    var nextCourseId: int
    var nextCategoryId: int
    var categories: seq<Category>
    var categoriesMap: map<int, Category>
    var coursesByCategory: map<int, seq<Course>>
    var allCourses: seq<Course>

    /** The invariant of the indexed catalog: categories numbered 1, 2, ...
        in declaration order; courses numbered 1, 2, ... in flat order by
        the shared counter; every course in one declared category; the
        per-category lists exactly the partition of the flat list by
        category id; and the flat list their concatenation in category
        order. It reads only constant fields of the courses. */
    ghost predicate Indexed()
      reads this
    {
      nextCategoryId == |categories| + 1 &&
      (forall j :: 0 <= j < |categories| ==> categories[j].id == j + 1) &&
      categoriesMap == CategoryMap(categories) &&
      nextCourseId == |allCourses| + 1 &&
      (forall k :: 0 <= k < |allCourses| ==> allCourses[k].id == k + 1) &&
      (forall k :: 0 <= k < |allCourses| ==> InCategory(allCourses[k], categories)) &&
      coursesByCategory == ByCategory(allCourses, |categories|) &&
      allCourses == Flatten(coursesByCategory, |categories|)
    }

    /** The indexed catalog with every progress in 0..100 and its
        successor links in place. */
    ghost predicate Valid()
      reads this, allCourses
    {
      Indexed() && ProgressInRange(allCourses) && Linked(allCourses)
    }

    /** Module initialisation: number the declared categories, index each
        category's listing with the shared counter, then link successors.
        `listings[j]` is what the directory of `decls[j]` lists. */
    constructor (decls: seq<CategoryDecl>, listings: seq<seq<FileEntry>>)
      requires |listings| == |decls|
      ensures Valid()
      ensures categories == Indexing.NumberCategories(decls, 1)
      ensures Shows(allCourses, Indexing.LinkRecords(Indexing.IndexAll(categories, listings, 1)))
      ensures forall k :: 0 <= k < |allCourses| ==> fresh(allCourses[k])
    {
      nextCourseId := 1;
      nextCategoryId := 1;
      categories := [];
      categoriesMap := map[];
      coursesByCategory := map[];
      allCourses := [];
      new;
      var i := 0;
      while i < |decls|
        invariant 0 <= i <= |decls|
        invariant categories == Indexing.NumberCategories(decls[..i], 1)
        invariant nextCategoryId == i + 1
        invariant nextCourseId == 1 && allCourses == [] && coursesByCategory == map[]
      {
        categories := categories + [Category(nextCategoryId, decls[i].name, decls[i].path)];
        nextCategoryId := nextCategoryId + 1;
        i := i + 1;
      }
      assert decls[..|decls|] == decls;
      categoriesMap := CategoryMap(categories);
      IndexCategories(listings);
      Indexing.IndexAllFresh(categories, listings, 1);
      ShowsByFields(allCourses, Indexing.IndexAll(categories, listings, 1));
      UpdateNextLessons(Indexing.IndexAll(categories, listings, 1));
      LinkedCatalog(listings);
    }

    /** Once linked, the indexed catalog is valid: every course still has
        the progress 0 it was created with. */
    lemma LinkedCatalog(listings: seq<seq<FileEntry>>)
      requires |listings| == |categories|
      requires Indexed() && Linked(allCourses)
      requires Shows(allCourses, Indexing.LinkRecords(Indexing.IndexAll(categories, listings, 1)))
      ensures Valid()
    {
      var rs := Indexing.IndexAll(categories, listings, 1);
      var linked := Indexing.LinkRecords(rs);
      Indexing.IndexAllFresh(categories, listings, 1);
      forall k | 0 <= k < |allCourses|
        ensures 0 <= allCourses[k].progress <= 100
      {
        assert allCourses[k].View() == linked[k];
        assert Indexing.FreshIn(rs[k], categories);
      }
    }

    /** The startup loop over the categories: each category's listing is
        read with the shared counter, stored as that category's list and
        appended to the flat list. */
    method IndexCategories(listings: seq<seq<FileEntry>>)
      requires |listings| == |categories|
      requires nextCategoryId == |categories| + 1
      requires forall j :: 0 <= j < |categories| ==> categories[j].id == j + 1
      requires categoriesMap == CategoryMap(categories)
      requires nextCourseId == 1 && allCourses == [] && coursesByCategory == map[]
      modifies this`nextCourseId, this`coursesByCategory, this`allCourses
      ensures Indexed() && Untouched(allCourses)
      ensures Describes(allCourses, Indexing.IndexAll(categories, listings, 1))
      ensures forall k :: 0 <= k < |allCourses| ==> fresh(allCourses[k])
    {
      var j := 0;
      while j < |categories|
        invariant 0 <= j <= |categories|
        invariant nextCourseId == |allCourses| + 1
        invariant Describes(allCourses, Indexing.IndexAll(categories[..j], listings[..j], 1))
        invariant Untouched(allCourses)
        invariant forall k :: 0 <= k < |allCourses| ==> fresh(allCourses[k])
        invariant coursesByCategory == ByCategory(allCourses, j)
        invariant allCourses == Flatten(coursesByCategory, j)
      {
        IndexCategory(listings, j);
        j := j + 1;
      }
      IndexedCatalog(listings, j);
    }

    /** The body of the startup loop for category `j + 1`: its listing is
        read with the shared counter, stored as its list and appended to
        the flat list. */
    method IndexCategory(listings: seq<seq<FileEntry>>, j: nat)
      requires |listings| == |categories| && j < |categories|
      requires forall i :: 0 <= i < |categories| ==> categories[i].id == i + 1
      requires nextCourseId == |allCourses| + 1
      requires Describes(allCourses, Indexing.IndexAll(categories[..j], listings[..j], 1))
      requires Untouched(allCourses)
      requires coursesByCategory == ByCategory(allCourses, j)
      requires allCourses == Flatten(coursesByCategory, j)
      modifies this`nextCourseId, this`coursesByCategory, this`allCourses
      ensures nextCourseId == |allCourses| + 1
      ensures Describes(allCourses, Indexing.IndexAll(categories[..j + 1], listings[..j + 1], 1))
      ensures Untouched(allCourses)
      ensures old(allCourses) <= allCourses
      ensures forall k :: 0 <= k < |allCourses| ==>
        (k < |old(allCourses)| && allCourses[k] == old(allCourses[k])) || fresh(allCourses[k])
      ensures coursesByCategory == ByCategory(allCourses, j + 1)
      ensures allCourses == Flatten(coursesByCategory, j + 1)
    {
      var category := categories[j];
      var courses := ReadCoursesFromDirectory(listings[j], category);
      IndexCategoryStep(allCourses, coursesByCategory, courses, categories, listings, j);
      coursesByCategory := coursesByCategory[category.id := courses];
      allCourses := allCourses + courses;
    }

    /** After the startup loop the catalog satisfies its invariant. */
    lemma IndexedCatalog(listings: seq<seq<FileEntry>>, n: nat)
      requires |listings| == |categories| == n
      requires nextCategoryId == n + 1
      requires forall j :: 0 <= j < n ==> categories[j].id == j + 1
      requires categoriesMap == CategoryMap(categories)
      requires nextCourseId == |allCourses| + 1
      requires Describes(allCourses, Indexing.IndexAll(categories[..n], listings[..n], 1))
      requires coursesByCategory == ByCategory(allCourses, n)
      requires allCourses == Flatten(coursesByCategory, n)
      ensures Indexed()
      ensures Describes(allCourses, Indexing.IndexAll(categories, listings, 1))
    {
      assert categories[..n] == categories && listings[..n] == listings;
      IndexedCourses(allCourses, categories, listings, n);
    }

    /** `readCoursesFromDirectory`: walks the listing in order and creates
        one course per PDF name, numbered by the shared counter. */
    method ReadCoursesFromDirectory(files: seq<FileEntry>, category: Category)
      returns (courses: seq<Course>)
      modifies this`nextCourseId
      ensures nextCourseId == old(nextCourseId) + |courses|
      ensures Describes(courses, Indexing.IndexListing(files, category, old(nextCourseId)))
      ensures Untouched(courses)
      ensures forall k :: 0 <= k < |courses| ==> fresh(courses[k])
    {
      courses := [];
      ghost var made: seq<CourseRecord> := [];
      var i := 0;
      while i < |files|
        invariant 0 <= i <= |files|
        invariant nextCourseId == old(nextCourseId) + |courses|
        invariant made == Indexing.IndexListing(files[..i], category, old(nextCourseId))
        invariant Describes(courses, made) && Untouched(courses)
        invariant forall k :: 0 <= k < |courses| ==> fresh(courses[k])
      {
        var file := files[i];
        assert files[..i + 1][..i] == files[..i];
        if IsPdfName(file.name) {
          var record := Indexing.NewCourseRecord(file, category, nextCourseId);
          var course := new Course(record);
          nextCourseId := nextCourseId + 1;
          courses := courses + [course];
          made := made + [record];
        }
        i := i + 1;
      }
      assert files[..i] == files;
    }

    /** `updateNextLessons`: overwrites every course's successor link and
        nothing else; `records` is what the courses showed before. */
    method UpdateNextLessons(ghost records: seq<CourseRecord>)
      requires forall k :: 0 <= k < |allCourses| ==> allCourses[k].id == k + 1
      requires Shows(allCourses, records)
      modifies allCourses
      ensures Linked(allCourses)
      ensures Shows(allCourses, Indexing.LinkRecords(records))
    {
      var cs := allCourses;
      ShowsByFields(cs, records);
      var i := 0;
      while i < |cs|
        invariant 0 <= i <= |cs|
        invariant forall k :: 0 <= k < |cs| ==> cs[k].progress == records[k].progress
        invariant forall k :: 0 <= k < i && k < |cs| - 1 ==> cs[k].nextLesson == Some(cs[k + 1].id)
        invariant i == |cs| && cs != [] ==> cs[|cs| - 1].nextLesson == None
      {
        if i < |cs| - 1 {
          cs[i].nextLesson := Some(cs[i + 1].id);
        } else {
          cs[i].nextLesson := None;
        }
        i := i + 1;
      }
      assert allCourses == cs;
      LinkedShows(cs, records);
    }

    /** `POST /api/courses/:id/progress`: an unknown id is refused first,
        then a missing or out-of-range value; otherwise the one course's
        progress is overwritten and the course is returned. */
    method UpdateProgress(id: int, progress: Option<int>) returns (r: Result<Course>)
      requires Valid()
      modifies allCourses
      ensures Valid()
      ensures !(1 <= id <= |allCourses|) ==> r == Err(CourseNotFound)
      ensures 1 <= id <= |allCourses| && !ValidProgress(progress) ==> r == Err(InvalidProgress)
      ensures 1 <= id <= |allCourses| && ValidProgress(progress) ==> r == Ok(allCourses[id - 1])
      ensures forall k :: 0 <= k < |allCourses| ==>
        allCourses[k].View() ==
          if r.Ok? && k == id - 1 then old(allCourses[k].View()).(progress := progress.value)
          else old(allCourses[k].View())
    {
      var found := GetCourse(id);
      if found.Err? {
        return Err(CourseNotFound);
      }
      var course := found.value;
      if !ValidProgress(progress) {
        return Err(InvalidProgress);
      }
      course.progress := progress.value;
      r := Ok(course);
    }

    /** `GET /api/courses/:id`. */
    function GetCourse(id: int): (r: Result<Course>)
      reads this, allCourses
      requires Valid()
      ensures r.Ok? <==> 1 <= id <= |allCourses|
      ensures r.Ok? ==> r.value == allCourses[id - 1] && r.value.id == id
      ensures r.Err? ==> r.error == CourseNotFound
    {
      FindNumbered(allCourses, 1, id);
      match Find(allCourses, id)
      case None => Err(CourseNotFound)
      case Some(course) => Ok(course)
    }

    /** `GET /api/courses/category/:categoryId`: the stored list of a
        declared category, even when it is empty; any other id is refused. */
    function CoursesOfCategory(categoryId: int): (r: Result<seq<Course>>)
      reads this, allCourses
      requires Valid()
      ensures r.Ok? <==> 1 <= categoryId <= |categories|
      ensures r.Ok? ==> r.value == OfCategory(allCourses, categoryId)
      ensures r.Err? ==> r.error == InvalidCategory
    {
      if categoryId in coursesByCategory then Ok(coursesByCategory[categoryId]) else Err(InvalidCategory)
    }

    /** `GET /api/categories`: id and name of every category, in
        declaration order. */
    function CategoryList(): (r: seq<CategorySummary>)
      reads this, allCourses
      requires Valid()
      ensures |r| == |categories|
      ensures forall j :: 0 <= j < |r| ==> r[j] == CategorySummary(j + 1, categories[j].name)
    {
      var cats := categories;
      seq(|cats|, j requires 0 <= j < |cats| => CategorySummary(cats[j].id, cats[j].name))
    }

    /** `GET /api/courses/:id/content`: the course's file is looked for in
        its category's directory under its title followed by ".pdf"; `fileExists`
        stands for the file system. */
    function GetContent(id: int, fileExists: string -> bool): (r: Result<string>)
      reads this, allCourses
      requires Valid()
      ensures r == Err(CourseNotFound) <==> !(1 <= id <= |allCourses|)
      ensures 1 <= id <= |allCourses| ==>
        var course := allCourses[id - 1];
        var path := Join(categories[course.categoryId - 1].path, ContentFileName(course.title));
        r == if fileExists(path) then Ok(path) else Err(PdfNotFound)
    {
      FindNumbered(allCourses, 1, id);
      CategoryMapNumbered(categories);
      match Find(allCourses, id)
      case None => Err(CourseNotFound)
      case Some(course) =>
        var category := categoriesMap[course.categoryId];
        var filePath := Join(category.path, ContentFileName(course.title));
        if fileExists(filePath) then Ok(filePath) else Err(PdfNotFound)
    }

    /** `GET /api/courses/:id/next`: the course named by the successor
        link. A link that is null (or 0, which JavaScript also treats as
        false) means there is no next lesson. */
    function GetNext(id: int): (r: Result<Course>)
      reads this, allCourses
      requires Valid()
      ensures r == Err(CourseNotFound) <==> !(1 <= id <= |allCourses|)
      ensures r == Err(NoNextLesson) <==> 1 <= id == |allCourses|
      ensures r.Ok? <==> 1 <= id < |allCourses|
      ensures r.Ok? ==> r.value == allCourses[id] && r.value.id == id + 1
    {
      FindNumbered(allCourses, 1, id);
      match Find(allCourses, id)
      case None => Err(CourseNotFound)
      case Some(course) =>
        assert course == allCourses[id - 1];
        LinkedAt(allCourses, id - 1);
        assert course.nextLesson == if id < |allCourses| then Some(id + 1) else None;
        if course.nextLesson.None? || course.nextLesson.value == 0 then Err(NoNextLesson)
        else
          FindNumbered(allCourses, 1, course.nextLesson.value);
          match Find(allCourses, course.nextLesson.value)
          // app.js answers with an empty body here; a valid catalog never gets here
          case None => Err(CourseNotFound)
          case Some(next) => Ok(next)
    }

    /** A catalog started from the two categories app.js declares lists
        them as category 1, "Gynecology", and category 2, "Obstetrics". */
    lemma DeclaredCategoryList(appDir: string)
      requires Valid()
      requires categories == Indexing.NumberCategories(Indexing.SourceCategories(appDir), 1)
      ensures CategoryList() == [CategorySummary(1, "Gynecology"), CategorySummary(2, "Obstetrics")]
    {
      assert categories[0].name == "Gynecology" && categories[1].name == "Obstetrics";
    }

    /** Following the successor links `steps` times from course `id`. */
    ghost function FollowNext(id: int, steps: nat): Result<Course>
      reads this, allCourses
      requires Valid()
      decreases steps
    {
      if steps == 0 then GetCourse(id)
      else match GetNext(id)
        case Err(e) => Err(e)
        case Ok(next) => FollowNext(next.id, steps - 1)
    }

    /** The successor links form one chain through the whole flat list:
        from course `id`, `steps` links lead to the course `steps` places
        further on, and one link past the last course there is no next
        lesson. */
    lemma {:induction false} ChainCoversCatalog(id: int, steps: nat)
      requires Valid()
      requires 1 <= id && id + steps <= |allCourses| + 1
      ensures id + steps <= |allCourses| ==> FollowNext(id, steps) == Ok(allCourses[id + steps - 1])
      ensures steps > 0 && id + steps == |allCourses| + 1 ==> FollowNext(id, steps) == Err(NoNextLesson)
      decreases steps
    {
      if steps > 0 && id < |allCourses| {
        ChainCoversCatalog(id + 1, steps - 1);
      }
    }
  }

  /** A list none of whose courses is in category `cid` has no sublist
      for it. */
  lemma {:induction false} OfCategoryNone(cs: seq<Course>, cid: int)
    requires forall k :: 0 <= k < |cs| ==> cs[k].categoryId != cid
    ensures OfCategory(cs, cid) == []
  {
    if cs != [] {
      OfCategoryNone(cs[..|cs| - 1], cid);
    }
  }

  /** A list all of whose courses are in category `cid` is its own
      sublist for `cid`. */
  lemma {:induction false} OfCategoryOnly(cs: seq<Course>, cid: int)
    requires forall k :: 0 <= k < |cs| ==> cs[k].categoryId == cid
    ensures OfCategory(cs, cid) == cs
  {
    if cs != [] {
      OfCategoryOnly(cs[..|cs| - 1], cid);
    }
  }
}
