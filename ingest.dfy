/**
 * The ingestion of `get_or_create_commits` in git_tool.py: one `Commit` per id that
 * `git log` lists, then four passes that each run one `git` command per commit (through
 * an ordered `pool.map`) and write result *i* onto commit *i* with `zip`.
 *
 * The process is a parameter `shell` from a command line to its decoded output, and
 * `dateutil.parser.parse` a parameter `parse` from text to timestamps.
 */
module Ingest {
  import opened Maybe
  import opened Text
  import opened Commits
  import opened Runner

  // ---------------------------------------------------------------------------
  // The commands
  // ---------------------------------------------------------------------------

  /** `CMD_GET_ALL_COMMIT_IDS`: the abbreviated hash of every non-merge commit, one per line, in quotes. */
  const AllCommitIds: string := "git log --pretty=format:\"%h\" --no-merges"

  /** `CMD_GET_COMMIT_FILES`: the paths a commit touches, one per line. */
  function FilesCommand(cid: string): string {
    "git diff-tree --no-commit-id --name-only -r " + cid
  }

  /** `CMD_GET_COMMIT_AUTHOR`: the author's e-mail address, in quotes. */
  function AuthorCommand(cid: string): string {
    "git show -s --format=\"%ae\" " + cid
  }

  /** `CMD_GET_COMMIT_DATE`: the committer date in ISO-like form, in quotes. */
  function DateCommand(cid: string): string {
    "git show -s --format=\"%ci\" " + cid
  }

  /** `CMD_GET_COMMIT_MESSAGE`: the raw message body, with a quote before its first and after its last line. */
  function MessageCommand(cid: string): string {
    "git show -s --format=\"%B\" " + cid
  }

  // ---------------------------------------------------------------------------
  // What each run_cmd configuration yields, typed
  // ---------------------------------------------------------------------------

  /** `list(map(chomp_quotes, lines))`. */
  function ChompEach(lines: seq<string>): (r: seq<string>)
    ensures |r| == |lines|
    ensures forall i :: 0 <= i < |r| ==> r[i] == ChompQuotes(lines[i])
  {
    seq(|lines|, i requires 0 <= i < |lines| => ChompQuotes(lines[i]))
  }

  /** The output's lines with `chomp_quotes` applied to each. */
  function ChompedLines(out: string): (r: seq<string>)
    ensures |r| == |Lines(out)|
  {
    ChompEach(Lines(out))
  }

  /** `run_cmd(cmd, preprocess_line=chomp_quotes)` yields the chomped lines. */
  lemma ChompedLinesRunCmd(out: string)
    ensures Output(out, Single(ChompLine), None) == List(Texts(ChompedLines(out)))
  {
    assert StepLines(Lines(out), Single(ChompLine)) == Texts(ChompedLines(out));
  }

  /** `commit.files`: the lines of `git diff-tree`, as `run_cmd` returns them without hooks. */
  function FetchFiles(shell: string -> string, cid: string): seq<string> {
    Lines(shell(FilesCommand(cid)))
  }

  lemma FetchFilesRunCmd(shell: string -> string, cid: string)
    ensures Output(shell(FilesCommand(cid)), NoStep, None) == List(Texts(FetchFiles(shell, cid)))
    ensures |FetchFiles(shell, cid)| >= 1
  {
  }

  /** `commit.author`: the first chomped line of `git show --format="%ae"`. */
  function FetchAuthor(shell: string -> string, cid: string): string {
    ChompedLines(shell(AuthorCommand(cid)))[0]
  }

  lemma FetchAuthorRunCmd(shell: string -> string, cid: string)
    ensures Output(shell(AuthorCommand(cid)), Single(ChompLine), Some(First)) == Str(FetchAuthor(shell, cid))
  {
    ChompedLinesRunCmd(shell(AuthorCommand(cid)));
  }

  /** `commit.created`: the first line of `git show --format="%ci"`, chomped and then parsed. */
  function FetchCreated(shell: string -> string, parse: string -> Timestamp, cid: string): Timestamp {
    parse(ChompedLines(shell(DateCommand(cid)))[0])
  }

  lemma FetchCreatedRunCmd(shell: string -> string, parse: string -> Timestamp, cid: string)
    ensures Output(shell(DateCommand(cid)), Chain([Some(ChompLine), Some(ParseLine(parse))]), Some(First))
      == Time(FetchCreated(shell, parse, cid))
  {
    ChainOfTwo(Lines(shell(DateCommand(cid))), ChompLine, ParseLine(parse));
  }

  /** The lines of the message, each chomped, as the message pass receives them. */
  function FetchMessageLines(shell: string -> string, cid: string): seq<string> {
    ChompedLines(shell(MessageCommand(cid)))
  }

  lemma FetchMessageLinesRunCmd(shell: string -> string, cid: string)
    ensures Output(shell(MessageCommand(cid)), Single(ChompLine), None) == List(Texts(FetchMessageLines(shell, cid)))
  {
    ChompedLinesRunCmd(shell(MessageCommand(cid)));
  }

  // ---------------------------------------------------------------------------
  // Enumerating the ids
  // ---------------------------------------------------------------------------

  lemma ChompedBlank(out: string)
    requires PyStrip(out) == ""
    ensures ChompedLines(out) == [""]
  {
    BlankOutputOneLine(out);
    assert Strip("", IsQuote) == "";
  }

  /** The ids as written: every chomped line of the `git log` output, including an empty one. */
  function EnumeratedIds(out: string): (ids: seq<string>)
    ensures |ids| >= 1
  {
    ChompedLines(out)
  }

  /**
   * With no commit to list, `git log` prints nothing (or only whitespace, the empty output
   * included), yet the split gives one empty line, so the loop as written creates one
   * commit whose id is empty.
   */
  lemma EmptyHistoryPhantomCommit(out: string)
    requires PyStrip(out) == ""
    ensures EnumeratedIds(out) == [""]
    ensures NewCommit(EnumeratedIds(out)[0]).cid == ""
  {
    ChompedBlank(out);
  }

  /** The elements of `ids` that are not empty, in order. */
  function NonEmpty(ids: seq<string>): (r: seq<string>)
    ensures |r| <= |ids|
    ensures forall i :: 0 <= i < |r| ==> r[i] != ""
  {
    if ids == [] then []
    else
      var init, last := ids[..|ids| - 1], ids[|ids| - 1];
      assert ids == init + [last];
      NonEmpty(init) + (if last != "" then [last] else [])
  }

  /** Dropping the empty ids keeps every other id. */
  lemma {:induction false} NonEmptyMembers(ids: seq<string>, id: string)
    ensures id in NonEmpty(ids) <==> id in ids && id != ""
  {
    if ids != [] {
      var init, last := ids[..|ids| - 1], ids[|ids| - 1];
      assert ids == init + [last];
      NonEmptyMembers(init, id);
    }
  }

  lemma {:induction false} NonEmptyKeeps(ids: seq<string>)
    requires forall i :: 0 <= i < |ids| ==> ids[i] != ""
    ensures NonEmpty(ids) == ids
  {
    if ids != [] {
      var init := ids[..|ids| - 1];
      NonEmptyKeeps(init);
      assert ids == init + [ids[|ids| - 1]];
    }
  }

  /** The ids the ingestion uses: the enumerated ones except the empty id, so an empty history gives no commit. */
  function CommitIds(out: string): seq<string> {
    NonEmpty(EnumeratedIds(out))
  }

  lemma EmptyHistoryNoCommit(out: string)
    requires PyStrip(out) == ""
    ensures CommitIds(out) == []
  {
    ChompedBlank(out);
    NonEmptyOfEmptyId();
  }

  lemma NonEmptyOfEmptyId()
    ensures NonEmpty([""]) == []
  {
    assert [""][..0] == [];
  }

  /** For any history that lists no empty id, the correction changes nothing. */
  lemma CommitIdsAsWritten(out: string)
    requires forall i :: 0 <= i < |EnumeratedIds(out)| ==> EnumeratedIds(out)[i] != ""
    ensures CommitIds(out) == EnumeratedIds(out)
  {
    NonEmptyKeeps(EnumeratedIds(out));
  }

  /** `"%h"` in the format: the id between quotes. */
  function Quote(cid: string): string {
    "\"" + cid + "\""
  }

  lemma QuoteChomp(cid: string)
    requires cid != [] && cid[0] != '"' && cid[|cid| - 1] != '"'
    ensures ChompQuotes(Quote(cid)) == cid
  {
    var q := Quote(cid);
    assert q[1..][0] == cid[0];
    assert Leading(q[1..], IsQuote) == 0;
    assert Leading(q, IsQuote) == 1;
    assert q[1..] == cid + "\"";
    assert (cid + "\"")[..|cid|] == cid;
    assert Trailing(cid, IsQuote) == 0;
    assert Trailing(q[1..], IsQuote) == 1;
    assert q[1..|q| - 1] == cid;
  }

  /** Each id between quotes. */
  function Quoted(ids: seq<string>): (r: seq<string>)
    ensures |r| == |ids|
    ensures forall i :: 0 <= i < |ids| ==> r[i] == Quote(ids[i])
  {
    seq(|ids|, i requires 0 <= i < |ids| => Quote(ids[i]))
  }

  /** The `git log` output listing `ids`: each id in quotes, one per line. */
  function Listing(ids: seq<string>): string {
    JoinLines(Quoted(ids))
  }

  /** The lines of a non-empty listing are the quoted ids. */
  lemma ListingLines(ids: seq<string>)
    requires ids != []
    requires forall i :: 0 <= i < |ids| ==> '\n' !in ids[i]
    ensures Lines(Listing(ids)) == Quoted(ids)
  {
    var quoted := Quoted(ids);
    forall i | 0 <= i < |quoted| ensures '\n' !in quoted[i] {
      assert quoted[i] == "\"" + ids[i] + "\"";
    }
    JoinEnds(quoted);
    StripKeeps(Listing(ids), IsSpace);
    SplitJoin(quoted);
  }

  /**
   * Enumerating a listing finds exactly its ids, in order, for every list of ids that are
   * non-empty, free of newlines and not delimited by quotes, the empty list included.
   */
  lemma CommitIdsRoundTrip(ids: seq<string>)
    requires forall i :: 0 <= i < |ids| ==> ids[i] != [] && '\n' !in ids[i]
    requires forall i :: 0 <= i < |ids| ==> ids[i][0] != '"' && ids[i][|ids[i]| - 1] != '"'
    ensures CommitIds(Listing(ids)) == ids
  {
    if ids == [] {
      var out := Listing(ids);
      assert out == "";
      EmptyHistoryNoCommit(out);
    } else {
      EnumeratedListing(ids);
      NonEmptyKeeps(ids);
    }
  }

  lemma EnumeratedListing(ids: seq<string>)
    requires ids != []
    requires forall i :: 0 <= i < |ids| ==> ids[i] != [] && '\n' !in ids[i]
    requires forall i :: 0 <= i < |ids| ==> ids[i][0] != '"' && ids[i][|ids[i]| - 1] != '"'
    ensures EnumeratedIds(Listing(ids)) == ids
  {
    ListingLines(ids);
    ChompQuoted(ids);
  }

  lemma ChompQuoted(ids: seq<string>)
    requires forall i :: 0 <= i < |ids| ==> ids[i] != [] && ids[i][0] != '"' && ids[i][|ids[i]| - 1] != '"'
    ensures ChompEach(Quoted(ids)) == ids
  {
    forall i | 0 <= i < |ids| ensures ChompEach(Quoted(ids))[i] == ids[i] {
      QuoteChomp(ids[i]);
    }
  }

  /** A newline-join of quoted lines starts and ends with a quote. */
  lemma {:induction false} JoinEnds(parts: seq<string>)
    requires |parts| >= 1
    requires forall i :: 0 <= i < |parts| ==> |parts[i]| >= 2 && parts[i][0] == '"' && parts[i][|parts[i]| - 1] == '"'
    ensures var s := JoinLines(parts); |s| >= 2 && s[0] == '"' && s[|s| - 1] == '"'
  {
    if |parts| > 1 {
      JoinEnds(parts[1..]);
      var rest := JoinLines(parts[1..]);
      assert JoinLines(parts) == parts[0] + "\n" + rest;
    }
  }

  // ---------------------------------------------------------------------------
  // The passes
  // ---------------------------------------------------------------------------

  /**
   * `for result, commit in zip(results, commits): <assign result to commit>`: `zip` stops at
   * the shorter sequence, so commit *i* receives result *i* when there is one and is
   * otherwise left as it is; the number and order of commits never change.
   */
  method Merge<T>(commits: seq<Commit>, results: seq<T>, assign: (Commit, T) -> Commit) returns (merged: seq<Commit>)
    ensures |merged| == |commits|
    ensures forall i :: 0 <= i < |commits| && i < |results| ==> merged[i] == assign(commits[i], results[i])
    ensures forall i :: |results| <= i < |commits| ==> merged[i] == commits[i]
  {
    merged := commits;
    var i := 0;
    while i < |results| && i < |commits|
      invariant 0 <= i <= |commits| && i <= |results|
      invariant |merged| == |commits|
      invariant forall j :: 0 <= j < i ==> merged[j] == assign(commits[j], results[j])
      invariant forall j :: i <= j < |commits| ==> merged[j] == commits[j]
    {
      merged := merged[i := assign(merged[i], results[i])];
      i := i + 1;
    }
  }

  /**
   * Reference definition of one ingested commit: the fields the four passes assign, in
   * their order, starting from `Commit(cid=cid)`.
   */
  function Ingested(shell: string -> string, parse: string -> Timestamp, cid: string): Commit {
    var c1 := WithFiles(NewCommit(cid), FetchFiles(shell, cid));
    var c2 := WithAuthor(c1, FetchAuthor(shell, cid));
    var c3 := WithCreated(c2, FetchCreated(shell, parse, cid));
    WithMessage(c3, FetchMessageLines(shell, cid))
  }

  /**
   * An ingested commit keeps its id, holds the output of each command for that id, and
   * stores as its message the trimmed newline-join of the chomped message lines.
   */
  lemma IngestedFields(shell: string -> string, parse: string -> Timestamp, cid: string)
    ensures var c := Ingested(shell, parse, cid);
      && c.cid == cid
      && c.files == Lines(shell(FilesCommand(cid)))
      && c.author == Some(ChompQuotes(Lines(shell(AuthorCommand(cid)))[0]))
      && c.created == Some(parse(ChompQuotes(Lines(shell(DateCommand(cid)))[0])))
      && c.message == Some(PyStrip(JoinLines(ChompedLines(shell(MessageCommand(cid))))))
      && Populated(c)
  {
  }

  /**
   * `for commit_id in ...: commits.append(Commit(cid=commit_id))` over the lines `run_cmd`
   * returns: one new commit per line, in order, the empty line included.
   */
  method CreateCommits(listing: seq<Value>, ghost ids: seq<string>) returns (commits: seq<Commit>)
    requires listing == Texts(ids)
    ensures |commits| == |ids|
    ensures forall j :: 0 <= j < |commits| ==> commits[j] == NewCommit(ids[j])
  {
    commits := [];
    for i := 0 to |listing|
      invariant |commits| == i
      invariant forall j :: 0 <= j < i ==> commits[j] == NewCommit(ids[j])
    {
      commits := commits + [NewCommit(listing[i].s)];
    }
  }

  /** The enumeration as written: one new commit per enumerated id, in `git log` order. */
  method EnumerateCommits(shell: string -> string) returns (commits: seq<Commit>)
    ensures var ids := EnumeratedIds(shell(AllCommitIds));
      && |commits| == |ids|
      && forall i :: 0 <= i < |ids| ==> commits[i] == NewCommit(ids[i])
  {
    var listing := RunCmd(AllCommitIds, shell, Single(ChompLine), None);
    ChompedLinesRunCmd(shell(AllCommitIds));
    commits := CreateCommits(listing.items, EnumeratedIds(shell(AllCommitIds)));
  }

  /** The correction: the commits whose id is not empty, in order. */
  method SkipEmptyIds(all: seq<Commit>, ghost ids: seq<string>) returns (commits: seq<Commit>)
    requires |all| == |ids|
    requires forall j :: 0 <= j < |all| ==> all[j] == NewCommit(ids[j])
    ensures |commits| == |NonEmpty(ids)|
    ensures forall j :: 0 <= j < |commits| ==> commits[j] == NewCommit(NonEmpty(ids)[j])
  {
    commits := [];
    for i := 0 to |all|
      invariant |commits| == |NonEmpty(ids[..i])|
      invariant forall j :: 0 <= j < |commits| ==> commits[j] == NewCommit(NonEmpty(ids[..i])[j])
    {
      assert ids[..i + 1][..i] == ids[..i];
      if all[i].cid != "" {
        commits := commits + [all[i]];
      }
    }
    assert ids[..|ids|] == ids;
  }

  /** The corrected enumeration: one new commit per non-empty id `git log` lists, in order. */
  method EnumerateNonEmpty(shell: string -> string) returns (commits: seq<Commit>)
    ensures var ids := CommitIds(shell(AllCommitIds));
      && |commits| == |ids|
      && forall i :: 0 <= i < |ids| ==> commits[i] == NewCommit(ids[i])
  {
    var all := EnumerateCommits(shell);
    commits := SkipEmptyIds(all, EnumeratedIds(shell(AllCommitIds)));
  }

  /** The `files` pass: commit *i* gets the files listed for its own id, and nothing else changes. */
  method AssignFiles(shell: string -> string, commits: seq<Commit>) returns (merged: seq<Commit>)
    ensures |merged| == |commits|
    ensures forall i :: 0 <= i < |commits| ==>
      SameExcept(commits[i], merged[i], FilesField) && merged[i].files == FetchFiles(shell, commits[i].cid)
  {
    var result := MapAll((c: Commit) => FetchFiles(shell, c.cid), commits);
    merged := Merge(commits, result, WithFiles);
  }

  /** The `author` pass. */
  method AssignAuthors(shell: string -> string, commits: seq<Commit>) returns (merged: seq<Commit>)
    ensures |merged| == |commits|
    ensures forall i :: 0 <= i < |commits| ==>
      SameExcept(commits[i], merged[i], AuthorField) && merged[i].author == Some(FetchAuthor(shell, commits[i].cid))
  {
    var result := MapAll((c: Commit) => FetchAuthor(shell, c.cid), commits);
    merged := Merge(commits, result, WithAuthor);
  }

  /** The `created` pass. */
  method AssignCreated(shell: string -> string, parse: string -> Timestamp, commits: seq<Commit>) returns (merged: seq<Commit>)
    ensures |merged| == |commits|
    ensures forall i :: 0 <= i < |commits| ==>
      SameExcept(commits[i], merged[i], CreatedField) && merged[i].created == Some(FetchCreated(shell, parse, commits[i].cid))
  {
    var result := MapAll((c: Commit) => FetchCreated(shell, parse, c.cid), commits);
    merged := Merge(commits, result, WithCreated);
  }

  /** The `message` pass: the trimmed newline-join of the chomped lines. */
  method AssignMessages(shell: string -> string, commits: seq<Commit>) returns (merged: seq<Commit>)
    ensures |merged| == |commits|
    ensures forall i :: 0 <= i < |commits| ==>
      && SameExcept(commits[i], merged[i], MessageField)
      && merged[i].message == Some(PyStrip(JoinLines(FetchMessageLines(shell, commits[i].cid))))
  {
    var result := MapAll((c: Commit) => FetchMessageLines(shell, c.cid), commits);
    merged := Merge(commits, result, WithMessage);
  }

  /**
   * The four passes of `get_or_create_commits` over fresh commits for `ids`: each commit
   * ends holding what the four commands print for its own id, every optional field set.
   */
  method RunPasses(shell: string -> string, parse: string -> Timestamp, c0: seq<Commit>, ghost ids: seq<string>)
    returns (commits: seq<Commit>)
    requires |c0| == |ids|
    requires forall i :: 0 <= i < |ids| ==> c0[i] == NewCommit(ids[i])
    ensures |commits| == |ids|
    ensures forall i :: 0 <= i < |ids| ==> commits[i] == Ingested(shell, parse, ids[i])
    ensures forall i :: 0 <= i < |ids| ==> commits[i].cid == ids[i] && Populated(commits[i])
  {
    var c1 := AssignFiles(shell, c0);
    var c2 := AssignAuthors(shell, c1);
    var c3 := AssignCreated(shell, parse, c2);
    commits := AssignMessages(shell, c3);
    forall i | 0 <= i < |ids| ensures commits[i] == Ingested(shell, parse, ids[i]) {
      var cid := ids[i];
      PassesCompose(cid, FetchFiles(shell, cid), FetchAuthor(shell, cid), FetchCreated(shell, parse, cid),
                    FetchMessageLines(shell, cid), c0[i], c1[i], c2[i], c3[i], commits[i]);
    }
    forall i | 0 <= i < |ids| ensures commits[i].cid == ids[i] && Populated(commits[i]) {
      IngestedFields(shell, parse, ids[i]);
    }
  }

  /**
   * `get_or_create_commits` without the cache, as written: a commit per enumerated id, the
   * empty one included, in `git log` order, each holding what the four commands print for it.
   */
  method BuildCommitsAsWritten(shell: string -> string, parse: string -> Timestamp) returns (commits: seq<Commit>)
    ensures var ids := EnumeratedIds(shell(AllCommitIds));
      && |commits| == |ids|
      && (forall i :: 0 <= i < |ids| ==> commits[i] == Ingested(shell, parse, ids[i]))
      && (forall i :: 0 <= i < |ids| ==> commits[i].cid == ids[i] && Populated(commits[i]))
  {
    var c0 := EnumerateCommits(shell);
    commits := RunPasses(shell, parse, c0, EnumeratedIds(shell(AllCommitIds)));
  }

  /**
   * `get_or_create_commits` without the cache, corrected: as written, but over the
   * non-empty ids only, so an empty history gives no commit.
   */
  method BuildCommits(shell: string -> string, parse: string -> Timestamp) returns (commits: seq<Commit>)
    ensures var ids := CommitIds(shell(AllCommitIds));
      && |commits| == |ids|
      && (forall i :: 0 <= i < |ids| ==> commits[i] == Ingested(shell, parse, ids[i]))
      && (forall i :: 0 <= i < |ids| ==> commits[i].cid == ids[i] && Populated(commits[i]))
  {
    var c0 := EnumerateNonEmpty(shell);
    commits := RunPasses(shell, parse, c0, CommitIds(shell(AllCommitIds)));
  }

  /**
   * Four commits, each differing from the one before only in the field its pass assigns,
   * end as the commit built from `Commit(cid=cid)` by those four assignments in order.
   */
  lemma PassesCompose(cid: string, files: seq<string>, author: string, created: Timestamp, lines: seq<string>,
                      c0: Commit, c1: Commit, c2: Commit, c3: Commit, c4: Commit)
    requires c0 == NewCommit(cid)
    requires SameExcept(c0, c1, FilesField) && c1.files == files
    requires SameExcept(c1, c2, AuthorField) && c2.author == Some(author)
    requires SameExcept(c2, c3, CreatedField) && c3.created == Some(created)
    requires SameExcept(c3, c4, MessageField) && c4.message == WithMessage(c3, lines).message
    ensures c4 == WithMessage(WithCreated(WithAuthor(WithFiles(NewCommit(cid), files), author), created), lines)
  {
  }
}
