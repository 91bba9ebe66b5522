/**
 * The `Commit` record of git_tool.py and the one-field updates the ingestion makes to it.
 */
module Commits {
  import opened Maybe
  import opened Text

  /**
   * A commit's creation time. The source holds a timezone-aware `datetime`; the model only
   * needs an ordered value, and the calendar functions of the queries take it as input.
   */
  type Timestamp = int

  /**
   * `@dataclass Commit`: `cid` is required; `created`, `author` and `message` default to
   * `None`; `files` defaults to an empty list.
   */
  datatype Commit = Commit(
    cid: string,
    created: Option<Timestamp>,
    author: Option<string>,
    message: Option<string>,
    files: seq<string>)

  /** `Commit(cid=commit_id)`: every other field at its default. */
  function NewCommit(cid: string): Commit {
    Commit(cid, None, None, None, [])
  }

  /** The fields an ingestion pass may assign. */
  datatype Field = CreatedField | AuthorField | MessageField | FilesField

  /** `d` agrees with `c` on the id and on every field other than `f`. */
  predicate SameExcept(c: Commit, d: Commit, f: Field) {
    && d.cid == c.cid
    && (f == CreatedField || d.created == c.created)
    && (f == AuthorField || d.author == c.author)
    && (f == MessageField || d.message == c.message)
    && (f == FilesField || d.files == c.files)
  }

  /** Every optional field has been assigned. */
  predicate Populated(c: Commit) {
    c.created.Some? && c.author.Some? && c.message.Some?
  }

  /** `commit.files = files`. */
  function WithFiles(c: Commit, files: seq<string>): (d: Commit)
    ensures SameExcept(c, d, FilesField) && d.files == files
  {
    c.(files := files)
  }

  /** `commit.author = author`. */
  function WithAuthor(c: Commit, author: string): (d: Commit)
    ensures SameExcept(c, d, AuthorField) && d.author == Some(author)
  {
    c.(author := Some(author))
  }

  /** `commit.created = _date`. */
  function WithCreated(c: Commit, created: Timestamp): (d: Commit)
    ensures SameExcept(c, d, CreatedField) && d.created == Some(created)
  {
    c.(created := Some(created))
  }

  /**
   * `commit.message = "\n".join(message).strip()`: the stored text is the newline-join of
   * the lines with surrounding whitespace removed, so it starts and ends with a character
   * that is not whitespace, and trimming it again changes nothing.
   */
  function WithMessage(c: Commit, lines: seq<string>): (d: Commit)
    ensures SameExcept(c, d, MessageField)
    ensures d.message == Some(PyStrip(JoinLines(lines)))
    ensures var m := d.message.value;
      && (m == [] || (!IsSpace(m[0]) && !IsSpace(m[|m| - 1])))
      && PyStrip(m) == m
  {
    var m := PyStrip(JoinLines(lines));
    StripIdempotent(JoinLines(lines), IsSpace);
    c.(message := Some(m))
  }
}
