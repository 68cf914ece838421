/** What indexing produces, as functions of the directory listings: the
    records of the courses in the order app.js creates them, before and
    after the successor links are filled in. The imperative indexer in
    module Catalog is proved against these functions. */
module Indexing {
  import opened Records
  import opened FileNames

  /** The categories app.js declares, in declaration order; `appDir` is
      the directory the server runs from. */
  function SourceCategories(appDir: string): seq<CategoryDecl> {
    [ CategoryDecl("Gynecology", Join(appDir, "public/courses/Gynecology")),
      CategoryDecl("Obstetrics", Join(appDir, "public/courses/Obstetrics")) ]
  }

  /** Declarations numbered from `firstId` on, in declaration order. */
  function NumberCategories(decls: seq<CategoryDecl>, firstId: int): seq<Category> {
    seq(|decls|, i requires 0 <= i < |decls| => Category(firstId + i, decls[i].name, decls[i].path))
  }

  /** The entries of a listing that the directory filter keeps, in
      listing order. */
  function PdfFiles(files: seq<FileEntry>): (r: seq<FileEntry>)
    ensures |r| <= |files|
  {
    if files == [] then []
    else
      var last := files[|files| - 1];
      PdfFiles(files[..|files| - 1]) + if IsPdfName(last.name) then [last] else []
  }

  /** Every listed entry with a PDF name is kept as often as it is listed,
      and no other entry is kept. */
  lemma {:induction false} PdfFilesCount(files: seq<FileEntry>, f: FileEntry)
    ensures multiset(PdfFiles(files))[f] == if IsPdfName(f.name) then multiset(files)[f] else 0
  {
    if files != [] {
      var init, last := files[..|files| - 1], files[|files| - 1];
      assert files == init + [last];
      PdfFilesCount(init, f);
    }
  }

  /** The course app.js creates for one kept file. */
  function NewCourseRecord(file: FileEntry, category: Category, id: int): CourseRecord {
    CourseRecord(id, Title(file.name), category.id, category.name, 0, DefaultIcon, file.size / 1000, None)
  }

  /** `readCoursesFromDirectory`: the listing is walked in order, and each
      entry that passes the filter becomes a course numbered with the next
      counter value, starting from `firstId`. */
  function IndexListing(files: seq<FileEntry>, category: Category, firstId: int): seq<CourseRecord> {
    if files == [] then []
    else
      var earlier := IndexListing(files[..|files| - 1], category, firstId);
      var file := files[|files| - 1];
      if IsPdfName(file.name) then
        earlier + [NewCourseRecord(file, category, firstId + |earlier|)]
      else earlier
  }

  /** The listing yields one course per kept entry, in listing order, the
      k-th numbered `firstId + k`, with progress 0, no successor yet, the
      category's id and name, the title derived from the name and the
      duration derived from the size. */
  lemma {:induction false} IndexListingFromPdfFiles(files: seq<FileEntry>, category: Category, firstId: int)
    ensures |IndexListing(files, category, firstId)| == |PdfFiles(files)|
    ensures forall k :: 0 <= k < |PdfFiles(files)| ==>
      IndexListing(files, category, firstId)[k] ==
      NewCourseRecord(PdfFiles(files)[k], category, firstId + k)
  {
    if files != [] {
      var n := |files|;
      var init, last := files[..n - 1], files[n - 1];
      var earlier, kept := IndexListing(init, category, firstId), PdfFiles(init);
      IndexListingFromPdfFiles(init, category, firstId);
      if IsPdfName(last.name) {
        var added := NewCourseRecord(last, category, firstId + |earlier|);
        assert IndexListing(files, category, firstId) == earlier + [added];
        assert PdfFiles(files) == kept + [last];
      } else {
        assert IndexListing(files, category, firstId) == earlier;
        assert PdfFiles(files) == kept;
      }
    }
  }

  /** The indexing loop over all categories: each category's listing is
      indexed in turn with the shared counter, and the results are
      concatenated in category order. */
  function IndexAll(categories: seq<Category>, listings: seq<seq<FileEntry>>, firstId: int): seq<CourseRecord>
    requires |listings| == |categories|
  {
    if categories == [] then []
    else
      var n := |categories|;
      var earlier := IndexAll(categories[..n - 1], listings[..n - 1], firstId);
      earlier + IndexListing(listings[n - 1], categories[n - 1], firstId + |earlier|)
  }

  /** The step equation that connects the category loop to `IndexAll`:
      indexing one more category appends that category's courses, numbered
      on from the courses so far. */
  lemma IndexAllStep(categories: seq<Category>, listings: seq<seq<FileEntry>>, j: nat, firstId: int)
    requires |listings| == |categories| && j < |categories|
    ensures IndexAll(categories[..j + 1], listings[..j + 1], firstId) ==
      IndexAll(categories[..j], listings[..j], firstId) +
      IndexListing(listings[j], categories[j], firstId + |IndexAll(categories[..j], listings[..j], firstId)|)
  {
    assert categories[..j + 1][..j] == categories[..j] && listings[..j + 1][..j] == listings[..j];
  }

  /** The counter is never reset: across all categories the k-th course
      gets id `firstId + k`. */
  lemma {:induction false} IndexAllIds(categories: seq<Category>, listings: seq<seq<FileEntry>>, firstId: int)
    requires |listings| == |categories|
    ensures forall k :: 0 <= k < |IndexAll(categories, listings, firstId)| ==>
      IndexAll(categories, listings, firstId)[k].id == firstId + k
  {
    if categories != [] {
      var n := |categories|;
      IndexAllIds(categories[..n - 1], listings[..n - 1], firstId);
      var earlier := IndexAll(categories[..n - 1], listings[..n - 1], firstId);
      IndexListingFromPdfFiles(listings[n - 1], categories[n - 1], firstId + |earlier|);
    }
  }

  /** With categories numbered 1, 2, ... every indexed course names an
      existing category and carries that category's name, and starts with
      progress 0 and no successor. */
  lemma {:induction false} IndexAllFresh(categories: seq<Category>, listings: seq<seq<FileEntry>>, firstId: int)
    requires |listings| == |categories|
    requires forall j :: 0 <= j < |categories| ==> categories[j].id == j + 1
    ensures forall k :: 0 <= k < |IndexAll(categories, listings, firstId)| ==>
      FreshIn(IndexAll(categories, listings, firstId)[k], categories)
  {
    if categories != [] {
      var n := |categories|;
      var init := categories[..n - 1];
      IndexAllFresh(init, listings[..n - 1], firstId);
      var earlier := IndexAll(init, listings[..n - 1], firstId);
      var added := IndexListing(listings[n - 1], categories[n - 1], firstId + |earlier|);
      IndexListingFromPdfFiles(listings[n - 1], categories[n - 1], firstId + |earlier|);
      var r := IndexAll(categories, listings, firstId);
      assert r == earlier + added;
      forall k | 0 <= k < |r|
        ensures FreshIn(r[k], categories)
      {
        if k < |earlier| {
          assert r[k] == earlier[k];
          assert FreshIn(earlier[k], init);
        } else {
          assert r[k] == added[k - |earlier|];
        }
      }
    }
  }

  /** The courses of one category are contiguous and the categories come
      in declaration order: category ids never decrease along the list. */
  lemma {:induction false} IndexAllOrdered(categories: seq<Category>, listings: seq<seq<FileEntry>>, firstId: int)
    requires |listings| == |categories|
    requires forall j :: 0 <= j < |categories| ==> categories[j].id == j + 1
    ensures forall i, k :: 0 <= i <= k < |IndexAll(categories, listings, firstId)| ==>
      IndexAll(categories, listings, firstId)[i].categoryId <= IndexAll(categories, listings, firstId)[k].categoryId
  {
    if categories != [] {
      var n := |categories|;
      var init := categories[..n - 1];
      IndexAllOrdered(init, listings[..n - 1], firstId);
      IndexAllFresh(init, listings[..n - 1], firstId);
      var earlier := IndexAll(init, listings[..n - 1], firstId);
      var added := IndexListing(listings[n - 1], categories[n - 1], firstId + |earlier|);
      IndexListingFromPdfFiles(listings[n - 1], categories[n - 1], firstId + |earlier|);
      var r := IndexAll(categories, listings, firstId);
      assert r == earlier + added;
      forall k | 0 <= k < |r|
        ensures k < |earlier| ==> r[k] == earlier[k] && r[k].categoryId <= n - 1
        ensures k >= |earlier| ==> r[k].categoryId == n
      {
        if k < |earlier| {
          assert FreshIn(earlier[k], init);
        } else {
          assert r[k] == added[k - |earlier|];
        }
      }
    }
  }

  /** A course record as indexing creates it for one of `categories`. */
  ghost predicate FreshIn(r: CourseRecord, categories: seq<Category>) {
    1 <= r.categoryId <= |categories| &&
    r.categoryName == categories[r.categoryId - 1].name &&
    r.progress == 0 && r.nextLesson == None
  }

  /** `updateNextLessons`: every course points at the id of the course
      after it in the flat list, and the last one at nothing. */
  function LinkRecords(rs: seq<CourseRecord>): seq<CourseRecord> {
    seq(|rs|, i requires 0 <= i < |rs| =>
      rs[i].(nextLesson := if i + 1 < |rs| then Some(rs[i + 1].id) else None))
  }

  /** In a freshly indexed catalog the successor links form one chain
      1 -> 2 -> ... -> n: every course but the last points at id + 1. */
  lemma IndexedChain(categories: seq<Category>, listings: seq<seq<FileEntry>>)
    requires |listings| == |categories|
    ensures var r := LinkRecords(IndexAll(categories, listings, 1));
      forall k :: 0 <= k < |r| ==>
        r[k].id == k + 1 &&
        r[k].nextLesson == if k + 1 < |r| then Some(r[k].id + 1) else None
  {
    var rs := IndexAll(categories, listings, 1);
    var r := LinkRecords(rs);
    IndexAllIds(categories, listings, 1);
    forall k | 0 <= k < |r|
      ensures r[k].id == k + 1
      ensures r[k].nextLesson == if k + 1 < |r| then Some(r[k].id + 1) else None
    {
      assert r[k].id == rs[k].id;
      if k + 1 < |r| {
        assert rs[k + 1].id == k + 2;
      }
    }
  }
}
