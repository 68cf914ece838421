/** The values the catalog is built from and hands back. */
module Records {

  datatype Option<T> = None | Some(value: T)

  /** The error responses of the course handlers, one per distinct status
      and message: 404 "Course not found", 400 "Invalid progress value",
      400 "Invalid category ID", 404 "No next lesson available" and
      404 "PDF file not found". */
  datatype Error = CourseNotFound | InvalidProgress | InvalidCategory | NoNextLesson | PdfNotFound

  datatype Result<T> = Ok(value: T) | Err(error: Error)

  /** One entry of a category directory's listing, with the size the
      file system reports for it. */
  datatype FileEntry = FileEntry(name: string, size: nat)

  /** A category as declared in the source, before it is numbered. */
  datatype CategoryDecl = CategoryDecl(name: string, path: string)

  datatype Category = Category(id: int, name: string, path: string)

  /** What `GET /api/categories` reports for one category. */
  datatype CategorySummary = CategorySummary(id: int, name: string)

  /** The fields of a course as the handlers serialise it, without the
      random display fields. `duration` is the number of minutes in the
      "<n> min" label. */
  datatype CourseRecord = CourseRecord(
    id: int,
    title: string,
    categoryId: int,
    categoryName: string,
    progress: int,
    icon: string,
    duration: nat,
    nextLesson: Option<int>)

  const DefaultIcon: string := "default-icon.png"

  /** The progress check of the update handler: the value must be present
      and lie in 0..100. */
  predicate ValidProgress(progress: Option<int>) {
    progress.Some? && 0 <= progress.value <= 100
  }
}
