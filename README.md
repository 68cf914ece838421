# Course catalog of app.js, modelled in Dafny

app.js is a small Express server for a course catalog. At startup it reads a
fixed list of category directories. Every PDF file in a category directory
becomes a course. The server builds a per-category table
(`coursesByCategory`) and a flat list (`allCourses`) of the same course
objects. Then it links each course to its successor in the flat list. After
that the handlers answer queries against this in-memory table. Only the
progress handler changes anything.

This project models that catalog:

- `records.dfy` (module `Records`) holds the values: categories, directory
  entries, the serialised view of a course, and the error responses.
- `file_names.dfy` (module `FileNames`) models the Node path helpers the
  indexer uses on file names:
  - the extension test, case-insensitive;
  - the title, which strips only a lower-case ".pdf";
  - the content file name and the path join.
- `indexing.dfy` (module `Indexing`) gives the pure specification of
  indexing and linking, as functions of the directory listings.
- `catalog.dfy` (module `CourseCatalog`) holds the imperative model:
  - `Course`, a class with the two fields app.js rewrites in place
    (`progress` and `nextLesson`);
  - `Catalog`, a class holding the module-level state of app.js;
  - its constructor, which runs the startup code;
  - the indexing and linking loops as methods;
  - the progress handler as a method that mutates one course;
  - the read-only handlers as functions.

The invariant `CourseCatalog.Catalog.Valid` covers the whole catalog:

- categories are numbered 1, 2, … in declaration order;
- courses are numbered 1, 2, … along the flat list;
- every course belongs to a declared category and carries its name;
- the per-category lists are exactly the partition of the flat list by
  category id, and their concatenation in category order is the flat list;
- every progress lies in 0..100;
- the successor links form one chain.

The constructor establishes the invariant and the progress handler keeps it.
The handlers are specified against it.

## Model

| member | source | states |
|---|---|---|
| FileNames.ExtName | app.js:21 | Node's extension of a single name: from the last dot on, "" when the only dot is the first character, when there is no dot, or for "..". Its properties are stated by ExtNameShape and PdfNameShape. |
| FileNames.BaseName | app.js:25 | Node's basename with a suffix on a single name: the suffix removed when the name ends with it, compared case-sensitively. Its properties are stated by BaseNameStrips. |
| FileNames.Title | app.js:25 | The course title: the name without a trailing lower-case ".pdf". TitleIsBaseName proves it equal to BaseName(name, ".pdf"). |
| Indexing.IndexListing | app.js:16-41 | The records one directory read creates, in listing order, numbered from the counter's value. Its properties are stated by IndexListingFromPdfFiles. |
| Indexing.IndexAll | app.js:66-69 | The records of all categories, each category's listing indexed in turn with the shared counter and concatenated in category order. IndexAllStep is the step equation that connects the category loop to it. Its properties are stated by IndexAllIds, IndexAllFresh and IndexAllOrdered. |
| Indexing.LinkRecords | app.js:72-80 | The records after linking: each points at the next record's id, the last at nothing. Its properties are stated by IndexedChain and LinkedShows. |
| CourseCatalog.CategoryMap | app.js:60 | The id-to-category map, entries added in order with a later one replacing an earlier one with the same id. Its properties are stated by CategoryMapNumbered. |
| Records.ValidProgress | app.js:103 | The update handler accepts a progress value exactly when it is present and lies in 0..100. UpdateProgress states the handler's behaviour in its terms. |
| FileNames.HasPdfExtension | app.js:21 | The directory filter as app.js writes it: the extension, lower-cased, is ".pdf". PdfNameShape proves it equal to IsPdfName. |
| FileNames.IsPdfName | app.js:21 | The same filter read off the last five characters of the name. It is the test the directory read runs, and PdfNameShape proves it equal to HasPdfExtension on every name. |
| FileNames.ContentFileName | app.js:136 | The file name the content handler asks for: the course title followed by ".pdf". Its properties are stated by ContentNameRoundTrip and UpperCaseExtension. |
| FileNames.Join | app.js:136 | The path join of a category directory and one entry name: the directory, "/", then the name. GetContent's contract uses it for the path it checks. |
| Indexing.SourceCategories | app.js:45-57 | The two categories app.js declares, "Gynecology" and "Obstetrics", in that order, each with its directory under the app directory. DeclaredCategoryList states how a catalog started from them lists them. |
| Indexing.NumberCategories | app.js:45-57 | The declared categories numbered from the counter's value, in declaration order. The constructor's contract fixes the catalog's categories as this numbering from 1, and CategoryMapNumbered and CategoryList state its consequences. |
| Indexing.PdfFiles | app.js:20-21 | The entries of a listing that the filter keeps, in listing order, never more than the listing has. PdfFilesCount states exactly which entries are kept and how often. |
| Indexing.NewCourseRecord | app.js:23-36 | The course created for one kept entry: the given id, the title, its category's id and name, progress 0, the default icon, duration size / 1000 and no successor. IndexListingFromPdfFiles states it for every course of a listing. |
| FileNames.ExtNameShape | app.js:21 | The extension is "" or a dot followed by no other dot, and it is a proper suffix of the name. It is empty exactly when no dot follows the first character, or when the name is "..". |
| FileNames.PdfNameShape | app.js:21 | The filter (extension lower-cased equals ".pdf") accepts exactly the names of at least five characters that end in '.', p, d, f, in either case. A bare ".pdf" has no extension. |
| FileNames.BaseNameStrips | app.js:25 | Basename with a suffix removes that suffix exactly when the name ends with it, and otherwise returns the name unchanged. |
| FileNames.TitleIsBaseName | app.js:25 | The course title equals basename(name, ".pdf"): the name minus a trailing lower-case ".pdf". |
| FileNames.ContentNameRoundTrip | app.js:136 | The title plus ".pdf" gives back the indexed file's own name exactly when that name ends in a lower-case ".pdf". Otherwise the handler asks for the name with ".pdf" appended. |
| FileNames.UpperCaseExtension | app.js:21-25 | "X.PDF" passes the filter and keeps the title "X.PDF", so the content handler looks for "X.PDF.pdf". |
| Indexing.PdfFilesCount | app.js:20-21 | Each listed entry with a PDF name is kept as often as it is listed, and no other entry is kept. |
| Indexing.IndexListingFromPdfFiles | app.js:16-41 | A listing yields one course per kept entry, in listing order. The k-th course is numbered firstId + k, has progress 0 and no successor, carries its category's id and name, has the derived title and has duration size / 1000. |
| Indexing.IndexAllStep | app.js:66-69 | Indexing one more category appends that category's courses, numbered on from the courses so far. |
| Indexing.IndexAllIds | app.js:62-69 | The counter is shared and never reset: across all categories the k-th course gets id firstId + k. |
| Indexing.IndexAllFresh | app.js:23-36 | Every indexed course names an existing category and carries its name, with progress 0 and no successor. |
| Indexing.IndexAllOrdered | app.js:66-69 | Category ids never decrease along the flat list, so each category's courses are contiguous and the categories come in declaration order. |
| Indexing.IndexedChain | app.js:72-80 | In the linked records the k-th course has id k + 1. Every course but the last points at id + 1, and the last points at nothing. |
| CourseCatalog.Find | app.js:92 | A found course has the id that was asked for. |
| CourseCatalog.FindNumbered | app.js:92 | In a list numbered first, first + 1, … the lookup finds id i at position i - first, and finds nothing outside that range. |
| CourseCatalog.OfCategoryMembers | app.js:67 | A category's sublist holds exactly the courses of the list that are in that category. |
| CourseCatalog.CategoryMapNumbered | app.js:60 | With categories numbered 1..n, `categoriesMap` has exactly the keys 1..n and maps each to its category. |
| CourseCatalog.IndexedCourses | app.js:62-69 | Courses that show the first j indexed listings are numbered 1, 2, … and each names one of the first j categories, with that category's name. |
| CourseCatalog.IndexCategoryStep | app.js:66-69 | One category step extends the flat list by exactly that category's courses and adds that category's entry to the table, so the table still partitions the flat list. |
| CourseCatalog.AddCategoryCourses | app.js:67-68 | Appending the courses of category j + 1 to a flat list of courses of categories 1..j extends the partition by one list and keeps the concatenation equal to the flat list. |
| CourseCatalog.LinkedShows | app.js:72-80 | Courses that agree with records on everything but the links, and are linked, show the linked records. |
| CourseCatalog.Catalog.constructor | app.js:12-83 | Startup numbers the declared categories from 1 and indexes every listing with the shared counter. The flat list shows exactly the linked records of the indexing specification, every course object is newly created, and the catalog is valid. |
| CourseCatalog.Catalog.LinkedCatalog | app.js:83 | The indexed catalog, once linked, is valid: every course still has its initial progress 0. |
| CourseCatalog.Catalog.IndexCategories | app.js:62-69 | The category loop leaves the catalog invariant in place. The flat list agrees with the indexing specification, and every course is new, with progress 0 and no link. |
| CourseCatalog.Catalog.IndexCategory | app.js:66-69 | One pass of the category loop stores that category's courses under its id and appends them to the flat list. The earlier flat list is a prefix of the new one (the same objects), every added course is new, and the partition and counter facts move from j to j + 1 categories. |
| CourseCatalog.Catalog.IndexedCatalog | app.js:62-69 | After the loop over all categories the catalog satisfies the invariant. |
| CourseCatalog.Catalog.ReadCoursesFromDirectory | app.js:16-41 | The directory read creates new courses that agree with the specification of the listing, each with progress 0 and no link. It advances the counter by the number of courses. |
| CourseCatalog.Catalog.UpdateNextLessons | app.js:72-80 | Every course points at the id of the next course in the flat list, and the last at nothing. Nothing else changes: the courses show the linked records. |
| CourseCatalog.Catalog.UpdateProgress | app.js:98-109 | An unknown id gives "Course not found", then a missing or out-of-range value gives "Invalid progress value"; in both cases no course changes. Otherwise only that course's progress becomes the value and the course is returned. The invariant is kept. |
| CourseCatalog.Catalog.GetCourse | app.js:91-95 | Found if and only if 1 <= id <= number of courses; the result is the course at position id - 1. Any other id gives "Course not found". |
| CourseCatalog.Catalog.CoursesOfCategory | app.js:112-120 | Succeeds if and only if the id is a declared category id, including a category without courses. The result is exactly that category's sublist of the flat list. Any other id gives "Invalid category ID". |
| CourseCatalog.Catalog.CategoryList | app.js:123-127 | One entry per category, in declaration order: the j-th entry is id j + 1 and that category's name. |
| CourseCatalog.Catalog.GetContent | app.js:131-143 | An unknown id gives "Course not found". Otherwise the path is the course category's directory joined with the title plus ".pdf". The result is that path when the file exists and "PDF file not found" otherwise. |
| CourseCatalog.Catalog.GetNext | app.js:146-156 | An unknown id gives "Course not found", and the last course gives "No next lesson available". Any other course yields the course after it in the flat list, whose id is id + 1. |
| CourseCatalog.Catalog.DeclaredCategoryList | app.js:45-57 | A catalog started from the two categories app.js declares lists them as (1, "Gynecology") and (2, "Obstetrics"). |
| CourseCatalog.Catalog.ChainCoversCatalog | app.js:146-156 | From course id, following the next-lesson links steps times reaches the course steps places further on. One link past the last course there is no next lesson, so the chain covers the whole flat list. |

## Left out

- Express, CORS, the static middleware, `app.listen` and the response
  formatting (app.js:1-10, 85-88, 158-160) are not modelled. They are
  transport plumbing. The handlers return a `Result` whose error names the
  status and message app.js sends.
- `GET /api/courses` is not modelled. It returns the flat list unchanged, and
  that list is the `allCourses` field.
- File-system calls are not modelled. Each directory listing, with the size
  statSync reports for each entry, is an input sequence of `FileEntry`
  values. `fs.existsSync` is the parameter `fileExists`.
- A missing or unreadable category directory is not modelled. In app.js,
  readdirSync or statSync throws and startup fails.
- The random display fields `color`, `bgColor`, `enrolledCount` and
  `rating` are not modelled. They come from `Math.random` and floating-point
  formatting, nothing reads them, and app.js never changes them.
- The duration is modelled as the whole number of minutes `size / 1000`,
  not as the string "<n> min".
- Node's path handling is modelled only for names without '/' (every
  directory entry is one).
- `path.join` normalisation is not modelled. A join is the directory, "/",
  then the entry name.
- Lower-casing is modelled for ASCII letters only. The filter compares the
  result with ".pdf", so no other character matters.
- Request parsing is not modelled:
  - ids are integers; `parseInt` on a non-numeric segment gives NaN, which
    matches no course.
  - the progress body is `Option<int>`, with `None` standing for an absent
    value.
- CourseCatalog.Catalog.UpdateProgress does not model a `null`, fractional or
  non-numeric progress body. In JavaScript `null` passes the range check
  (`null < 0` is false) and is stored. The model accepts only integers in
  0..100, so it states the handler's evident intent for the values it can
  express.
- CourseCatalog.Catalog.GetNext answers "Course not found" when a link names no
  course. app.js would send an empty JSON body there. The invariant rules
  this case out, so no reachable behaviour differs.
- Concurrency is not modelled. The server is single-threaded, and each
  handler runs to completion.
- Category declarations are an input list numbered 1, 2, … in order.
  `Indexing.SourceCategories` gives the two categories app.js declares. The
  general list covers the "add more categories here" extension point.
- A `completed` flag (true at progress 100) is not modelled, because this
  app.js has no such field. The title is not the name minus any extension:
  only a lower-case ".pdf" is stripped, as `FileNames.TitleIsBaseName`
  states.
