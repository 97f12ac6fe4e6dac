/**
 * The records the tracker keeps: chapters, editing passes, to-dos and the
 * metadata singleton, as they sit in the document store and in memory.
 */
module Records {
  import opened Wrappers

  /** Status a chapter gets when the store has none (main.py:260). */
  const NotStarted: string := "Not Started"
  /** Priority a chapter gets when the store has none (main.py:261). */
  const LowPriority: string := "\U{1F7E8} Low"
  /** The terminal status whose selection triggers the celebration (main.py:604). */
  const Done: string := "\U{2705} Done"

  /**
   * A chapter's deadline as stored: absent (or null), a `YYYY-MM-DD` text
   * that parses to the calendar day `day` (a day number), or any other text,
   * including the empty string, that does not parse.
   */
  datatype Deadline = Missing | Iso(day: int) | Other(text: string)

  /** A deadline text is truthy unless it is absent or the empty string. */
  predicate HasDeadlineText(d: Deadline) {
    !(d.Missing? || d == Other(""))
  }

  /**
   * The parsed date derived at load time (`deadline_obj`): a day number for
   * a parseable text, nothing for an absent, empty or invalid one.
   */
  function ParseDeadline(d: Deadline): (r: Option<int>)
    ensures r.Some? <==> d.Iso?
    ensures d.Iso? ==> r == Some(d.day)
  {
    match d
    case Iso(day) => Some(day)
    case _ => None
  }

  /**
   * A chapter document. Every field the store may lack is optional, so that
   * the load-time defaulting and the save-time normalisation can be stated.
   */
  datatype Chapter = Chapter(
    title: Option<string>,
    status: Option<string>,
    wordCount: Option<int>,
    previousWordCount: Option<int>,
    priority: Option<string>,
    deadline: Deadline,
    lastEdited: Option<string>)

  /**
   * An in-memory chapter: its document, the transient `_changed` marker, and
   * the `deadline_obj` date the load attaches for the date widget (`None`
   * when that key is absent or null). Both extra keys travel with the
   * chapter's dictionary into the save.
   */
  datatype Tracked = Tracked(doc: Chapter, changed: bool, parsed: Option<int>)

  datatype EditingPass = EditingPass(
    focusArea: string,
    description: string,
    chapterId: Option<int>,
    completed: bool)

  datatype Todo = Todo(task: string, completed: bool)

  datatype Metadata = Metadata(
    projectStartWordCount: int,
    targetWordCount: int,
    darkMode: bool)

  /** The metadata used when the store holds none (main.py:246). */
  const DefaultMetadata: Metadata := Metadata(0, 80000, false)

  /** An in-memory record with its visible `id` field, which may be missing. */
  datatype Row<R> = Row(id: Option<int>, rec: R)

  type ChapterRow = Row<Tracked>

  /** The whole in-memory state handed to and from the store. */
  datatype AppState = AppState(
    chapters: seq<ChapterRow>,
    passes: seq<Row<EditingPass>>,
    todos: seq<Row<Todo>>,
    metadata: Metadata)

  /** Python truthiness of an id: `None` and `0` are falsy. */
  predicate Truthy(id: Option<int>) {
    id.Some? && id.value != 0
  }

  /** A chapter with every field the store may omit present. */
  predicate Complete(c: Chapter) {
    c.title.Some? && c.status.Some? && c.wordCount.Some?
    && c.previousWordCount.Some? && c.priority.Some?
  }

  /**
   * The load-time `setdefault` of the four essential chapter fields
   * (main.py:258-261): absent fields get their default, present ones stay.
   */
  function WithDefaults(c: Chapter): (r: Chapter)
    ensures r.wordCount.Some? && r.previousWordCount.Some?
    ensures r.status.Some? && r.priority.Some?
    ensures c.wordCount.Some? ==> r.wordCount == c.wordCount
    ensures c.wordCount.None? ==> r.wordCount == Some(0)
    ensures c.previousWordCount.Some? ==> r.previousWordCount == c.previousWordCount
    ensures c.previousWordCount.None? ==> r.previousWordCount == Some(0)
    ensures c.status.Some? ==> r.status == c.status
    ensures c.status.None? ==> r.status == Some(NotStarted)
    ensures c.priority.Some? ==> r.priority == c.priority
    ensures c.priority.None? ==> r.priority == Some(LowPriority)
    ensures r.title == c.title && r.deadline == c.deadline && r.lastEdited == c.lastEdited
  {
    c.(wordCount := Some(c.wordCount.GetOr(0)),
       previousWordCount := Some(c.previousWordCount.GetOr(0)),
       status := Some(c.status.GetOr(NotStarted)),
       priority := Some(c.priority.GetOr(LowPriority)))
  }

  /**
   * A chapter as the load leaves it in memory (main.py:249-261): the date
   * parsed from its stored deadline text, its defaults filled in, unchanged.
   */
  function Loaded(c: Chapter): (r: Tracked)
    ensures r.doc == WithDefaults(c) && !r.changed
    ensures r.parsed.Some? <==> c.deadline.Iso?
    ensures c.deadline.Iso? ==> r.parsed == Some(c.deadline.day)
  {
    Tracked(WithDefaults(c), false, ParseDeadline(c.deadline))
  }

  /** Defaulting twice is defaulting once; a complete chapter is left as it is. */
  lemma WithDefaultsIdempotent(c: Chapter)
    ensures WithDefaults(WithDefaults(c)) == WithDefaults(c)
    ensures Complete(c) ==> WithDefaults(c) == c
  {
  }

  /**
   * The word delta shown beside each chapter (main.py:507): the current
   * count minus the previous one, where a missing previous count reads as
   * the current count and a missing current count as 0.
   */
  function WordDelta(c: Chapter): (r: int)
    ensures c.previousWordCount.None? ==> r == 0
    ensures c.wordCount == Some(0) && c.previousWordCount.Some? ==> r == -c.previousWordCount.value
  {
    var wc := c.wordCount.GetOr(0);
    wc - c.previousWordCount.GetOr(wc)
  }
}
