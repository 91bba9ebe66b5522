/**
 * The query layer of git_tool.py: `iterate_over`, `has_message`, `get_authors`, the
 * predicate builders `whole_year` and `only_authors`, `group_by`, `do_count`, and the
 * counting half of `get_average_count_by_author_in_year`.
 */
module Query {
  import opened Maybe
  import opened Text
  import opened Commits

  // ---------------------------------------------------------------------------
  // Filtering: iterate_over
  // ---------------------------------------------------------------------------

  /** Python's `filter(p, s)`, consumed: the elements of `s` that satisfy `p`, in order. */
  function Select<T>(s: seq<T>, p: T -> bool): seq<T> {
    if s == [] then []
    else Select(s[..|s| - 1], p) + (if p(s[|s| - 1]) then [s[|s| - 1]] else [])
  }

  /** A commit passes every callable argument; `None` stands for an argument that is not callable. */
  predicate Satisfies(args: seq<Option<Commit -> bool>>, c: Commit) {
    forall i :: 0 <= i < |args| && args[i].Some? ==> args[i].value(c)
  }

  /** Reference definition: the commits that pass every callable argument, in store order. */
  function SelectAll(commits: seq<Commit>, args: seq<Option<Commit -> bool>>): (r: seq<Commit>)
    ensures |r| <= |commits|
  {
    if commits == [] then []
    else
      var init, last := commits[..|commits| - 1], commits[|commits| - 1];
      assert commits == init + [last];
      SelectAll(init, args) + (if Satisfies(args, last) then [last] else [])
  }

  /** A commit is selected iff it is in the input and passes every callable argument. */
  lemma {:induction false} SelectAllMembers(commits: seq<Commit>, args: seq<Option<Commit -> bool>>, c: Commit)
    ensures c in SelectAll(commits, args) <==> c in commits && Satisfies(args, c)
  {
    if commits != [] {
      var init, last := commits[..|commits| - 1], commits[|commits| - 1];
      assert commits == init + [last];
      SelectAllMembers(init, args, c);
    }
  }

  lemma SelectAllSnoc(s: seq<Commit>, x: Commit, args: seq<Option<Commit -> bool>>)
    ensures SelectAll(s + [x], args) == SelectAll(s, args) + (if Satisfies(args, x) then [x] else [])
  {
    assert (s + [x])[..|s|] == s;
  }

  lemma SatisfiesCons(args: seq<Option<Commit -> bool>>, c: Commit)
    requires |args| > 0
    ensures Satisfies(args, c) <==> (args[0].None? || args[0].value(c)) && Satisfies(args[1..], c)
  {
    if (args[0].None? || args[0].value(c)) && Satisfies(args[1..], c) {
      forall i | 0 <= i < |args| && args[i].Some? ensures args[i].value(c) {
        if i > 0 { assert args[i] == args[1..][i - 1]; }
      }
    }
  }

  lemma SatisfiesSingle(f: Commit -> bool, c: Commit)
    ensures Satisfies([Some(f)], c) <==> f(c)
  {
    assert [Some(f)][0] == Some(f);
  }

  /** Filtering by the first argument and then by the rest is filtering by all of them. */
  lemma {:induction false} SelectThenAll(s: seq<Commit>, args: seq<Option<Commit -> bool>>)
    requires |args| > 0
    ensures SelectAll(if args[0].Some? then Select(s, args[0].value) else s, args[1..]) == SelectAll(s, args)
  {
    if s != [] {
      var init, last := s[..|s| - 1], s[|s| - 1];
      assert s == init + [last];
      SelectThenAll(init, args);
      SatisfiesCons(args, last);
      SelectAllSnoc(init, last, args);
      SelectAllSnoc(init, last, args[1..]);
      if args[0].Some? {
        var f := args[0].value;
        if f(last) {
          SelectAllSnoc(Select(init, f), last, args[1..]);
        } else {
          assert Select(s, f) == Select(init, f) + [];
          assert Select(init, f) + [] == Select(init, f);
        }
      }
    }
  }

  /** When no argument is callable, every commit passes. */
  lemma {:induction false} SelectAllNoCallable(s: seq<Commit>, args: seq<Option<Commit -> bool>>)
    requires forall i :: 0 <= i < |args| ==> args[i].None?
    ensures SelectAll(s, args) == s
  {
    if s != [] {
      var init, last := s[..|s| - 1], s[|s| - 1];
      SelectAllNoCallable(init, args);
      SelectAllSnoc(init, last, args);
      assert s == init + [last];
    }
  }

  /**
   * `iterate_over(commits, *args)`: for each callable argument in turn, `commits` is
   * replaced by `filter(fn, commits)`. The result is exactly the commits that pass every
   * callable argument, in their original order.
   */
  function IterateOver(commits: seq<Commit>, args: seq<Option<Commit -> bool>>): (r: seq<Commit>)
    ensures r == SelectAll(commits, args)
    decreases |args|
  {
    if args == [] then
      SelectAllNoCallable(commits, args);
      commits
    else
      SelectThenAll(commits, args);
      IterateOver(if args[0].Some? then Select(commits, args[0].value) else commits, args[1..])
  }

  /** With no callable argument `iterate_over` yields every commit. */
  lemma IterateOverNoPredicates(commits: seq<Commit>, args: seq<Option<Commit -> bool>>)
    requires forall i :: 0 <= i < |args| ==> args[i].None?
    ensures IterateOver(commits, args) == commits
  {
    SelectAllNoCallable(commits, args);
  }

  // ---------------------------------------------------------------------------
  // Text search: has_message
  // ---------------------------------------------------------------------------

  /** The lowercased search text occurs in the lowercased message. */
  predicate Mentions(c: Commit, search: string) {
    c.message.Some? && Contains(Lower(c.message.value), Lower(search))
  }

  /** `in_message` inside has_message. */
  function InMessage(search: string): Commit -> bool {
    (c: Commit) => Mentions(c, search)
  }

  /** Reference count: the number of commits whose message mentions `search`. */
  function CountMentions(commits: seq<Commit>, search: string): nat {
    if commits == [] then 0
    else CountMentions(commits[..|commits| - 1], search) + (if Mentions(commits[|commits| - 1], search) then 1 else 0)
  }

  lemma {:induction false} SelectMentionsCount(commits: seq<Commit>, search: string)
    ensures |SelectAll(commits, [Some(InMessage(search))])| == CountMentions(commits, search)
  {
    if commits != [] {
      var init, last := commits[..|commits| - 1], commits[|commits| - 1];
      SelectMentionsCount(init, search);
      SelectAllSnoc(init, last, [Some(InMessage(search))]);
      assert commits == init + [last];
      SatisfiesSingle(InMessage(search), last);
    }
  }

  /**
   * `has_message(commits, search)`: the number of commits whose message contains `search`,
   * ignoring case; never more than the number of commits.
   */
  function HasMessage(commits: seq<Commit>, search: string): (n: nat)
    ensures n == CountMentions(commits, search)
    ensures n <= |commits|
  {
    SelectMentionsCount(commits, search);
    |IterateOver(commits, [Some(InMessage(search))])|
  }

  /** The empty search text is found in every message. */
  lemma {:induction false} HasMessageEmptySearch(commits: seq<Commit>)
    requires forall i :: 0 <= i < |commits| ==> commits[i].message.Some?
    ensures HasMessage(commits, "") == |commits|
  {
    if commits != [] {
      var init := commits[..|commits| - 1];
      HasMessageEmptySearch(init);
      var last := commits[|commits| - 1];
      assert Lower("") == "";
      ContainsEmpty(Lower(last.message.value));
    }
  }

  /** The search text's own case makes no difference. */
  lemma {:induction false} HasMessageIgnoresCase(commits: seq<Commit>, search: string)
    ensures HasMessage(commits, search) == HasMessage(commits, Lower(search))
  {
    LowerIdempotent(search);
    if commits != [] {
      HasMessageIgnoresCase(commits[..|commits| - 1], search);
    }
  }

  // ---------------------------------------------------------------------------
  // Authors: get_authors, only_authors
  // ---------------------------------------------------------------------------

  /** `set(c.author for c in commits)`, over the commits whose author is set. */
  function Authors(commits: seq<Commit>): set<string> {
    set c | c in commits && c.author.Some? :: c.author.value
  }

  /**
   * `get_authors(commits, substring)`: each distinct author of `commits` that contains
   * `substring`, and nothing else.
   */
  function GetAuthors(commits: seq<Commit>, substring: string): (r: set<string>)
    ensures forall a :: a in r <==>
      Contains(a, substring) && exists i :: 0 <= i < |commits| && commits[i].author == Some(a)
  {
    set a | a in Authors(commits) && Contains(a, substring)
  }

  lemma {:induction false} AuthorsBound(commits: seq<Commit>)
    ensures |Authors(commits)| <= |commits|
  {
    if commits != [] {
      var init, last := commits[..|commits| - 1], commits[|commits| - 1];
      AuthorsBound(init);
      assert commits == init + [last];
      var extra: set<string> := if last.author.Some? then {last.author.value} else {};
      assert Authors(commits) == Authors(init) + extra;
    }
  }

  /** There are never more matching authors than commits. */
  lemma GetAuthorsBound(commits: seq<Commit>, substring: string)
    ensures |GetAuthors(commits, substring)| <= |commits|
  {
    AuthorsBound(commits);
    var matching, all := GetAuthors(commits, substring), Authors(commits);
    var rest := all - matching;
    assert all == matching + rest && matching !! rest;
  }

  /** `only_authors(authors)`: the commit's author is one of `authors`. */
  function OnlyAuthors(authors: set<string>): Commit -> bool {
    (c: Commit) => c.author.Some? && c.author.value in authors
  }

  /** A commit of the store passes `only_authors(get_authors(commits, s))` iff its author contains `s`. */
  lemma OnlyMatchingAuthors(commits: seq<Commit>, substring: string, i: nat)
    requires i < |commits|
    ensures OnlyAuthors(GetAuthors(commits, substring))(commits[i]) <==>
      commits[i].author.Some? && Contains(commits[i].author.value, substring)
  {
  }

  // ---------------------------------------------------------------------------
  // Calendar: whole_year
  // ---------------------------------------------------------------------------

  /**
   * The calendar view of a timestamp the queries use: `ordinal(t)` is
   * `t.date().toordinal()` and `isoWeek(t)` is `t.date().isocalendar()[1]`.
   */
  datatype Calendar = Calendar(ordinal: Timestamp -> int, isoWeek: Timestamp -> int)

  predicate IsLeap(year: int) {
    year % 4 == 0 && (year % 100 != 0 || year % 400 == 0)
  }

  /** `date(year, 1, 1).toordinal()` in the proleptic Gregorian calendar. */
  function NewYearOrdinal(year: int): int {
    var y := year - 1;
    y * 365 + y / 4 - y / 100 + y / 400 + 1
  }

  /** A year has 366 days when it is a leap year and 365 otherwise. */
  lemma YearLength(year: int)
    ensures NewYearOrdinal(year + 1) - NewYearOrdinal(year) == if IsLeap(year) then 366 else 365
  {
    var y := year - 1;
    DivStep4(year);
    DivStep100(year);
    DivStep400(year);
    if year % 400 == 0 { Div400By100(year); }
    if year % 100 == 0 { Div100By4(year); }
    assert NewYearOrdinal(year + 1) - NewYearOrdinal(year)
      == 365 + (year / 4 - y / 4) - (year / 100 - y / 100) + (year / 400 - y / 400);
  }

  lemma Div400By100(a: int)
    requires a % 400 == 0
    ensures a % 100 == 0
  {
    assert a == 100 * (4 * (a / 400));
  }

  lemma Div100By4(a: int)
    requires a % 100 == 0
    ensures a % 4 == 0
  {
    assert a == 4 * (25 * (a / 100));
  }

  lemma DivStep4(a: int)
    ensures a / 4 - (a - 1) / 4 == if a % 4 == 0 then 1 else 0
  {
  }

  lemma DivStep100(a: int)
    ensures a / 100 - (a - 1) / 100 == if a % 100 == 0 then 1 else 0
  {
  }

  lemma DivStep400(a: int)
    ensures a / 400 - (a - 1) / 400 == if a % 400 == 0 then 1 else 0
  {
  }

  lemma {:induction false} NewYearIncreasing(a: int, b: int)
    requires a < b
    ensures NewYearOrdinal(a) < NewYearOrdinal(b)
    decreases b - a
  {
    YearLength(a);
    if a + 1 < b {
      NewYearIncreasing(a + 1, b);
    }
  }

  /** The condition of `whole_year(year)`: `date(year, 1, 1) <= c.created.date() < date(year + 1, 1, 1)`. */
  predicate InYear(cal: Calendar, year: int, c: Commit) {
    c.created.Some? && NewYearOrdinal(year) <= cal.ordinal(c.created.value) < NewYearOrdinal(year + 1)
  }

  /** `whole_year(year)`. */
  function WholeYear(cal: Calendar, year: int): Commit -> bool {
    (c: Commit) => InYear(cal, year, c)
  }

  /** The windows of `whole_year` for different years never overlap. */
  lemma YearsDisjoint(cal: Calendar, y1: int, y2: int, c: Commit)
    requires WholeYear(cal, y1)(c) && WholeYear(cal, y2)(c)
    ensures y1 == y2
  {
    if y1 < y2 {
      if y1 + 1 < y2 { NewYearIncreasing(y1 + 1, y2); }
    } else if y2 < y1 {
      if y2 + 1 < y1 { NewYearIncreasing(y2 + 1, y1); }
    }
  }

  // ---------------------------------------------------------------------------
  // Insertion-ordered dictionaries and the sums over them
  // ---------------------------------------------------------------------------

  predicate NoDup<T(==)>(s: seq<T>) {
    forall i, j :: 0 <= i < j < |s| ==> s[i] != s[j]
  }

  /** A Python dict (or `defaultdict`, `Counter`): its keys in insertion order and its entries. */
  datatype Dict<K, V> = Dict(keys: seq<K>, entries: map<K, V>)

  ghost predicate ValidDict<K(!new), V>(d: Dict<K, V>) {
    NoDup(d.keys) && forall k :: k in d.entries <==> k in d.keys
  }

  /** `[key(x) for x in xs]`. */
  function Image<T, K>(xs: seq<T>, key: T -> K): (ks: seq<K>)
    ensures |ks| == |xs|
    ensures forall i :: 0 <= i < |xs| ==> ks[i] == key(xs[i])
  {
    if xs == [] then [] else Image(xs[..|xs| - 1], key) + [key(xs[|xs| - 1])]
  }

  lemma ImageSnoc<T, K>(xs: seq<T>, x: T, key: T -> K)
    ensures Image(xs + [x], key) == Image(xs, key) + [key(x)]
  {
    assert (xs + [x])[..|xs|] == xs;
  }

  /** The distinct values of `ks` in the order of their first occurrence. */
  function FirstSeen<K(==,!new)>(ks: seq<K>): (r: seq<K>)
    ensures NoDup(r)
    ensures forall k :: k in r <==> k in ks
  {
    if ks == [] then []
    else
      var init, last := ks[..|ks| - 1], ks[|ks| - 1];
      assert ks == init + [last];
      var p := FirstSeen(init);
      if last in p then p else p + [last]
  }

  lemma FirstSeenSnoc<K(!new)>(ks: seq<K>, k: K)
    ensures FirstSeen(ks + [k]) == if k in FirstSeen(ks) then FirstSeen(ks) else FirstSeen(ks) + [k]
  {
    assert (ks + [k])[..|ks|] == ks;
  }

  /** The index of the first occurrence of `k` in `ks`. */
  function FirstIndex<K(==)>(ks: seq<K>, k: K): (i: nat)
    requires k in ks
    ensures i < |ks| && ks[i] == k
    ensures forall j :: 0 <= j < i ==> ks[j] != k
  {
    if ks[0] == k then 0 else 1 + FirstIndex(ks[1..], k)
  }

  lemma FirstIndexSnoc<K>(ks: seq<K>, x: K, k: K)
    requires k in ks
    ensures FirstIndex(ks + [x], k) == FirstIndex(ks, k)
  {
    var b := FirstIndex(ks, k);
    assert (ks + [x])[b] == k;
    assert forall j :: 0 <= j < b ==> (ks + [x])[j] == ks[j];
  }

  /** The keys `FirstSeen` keeps appear in the order in which `ks` first shows them. */
  lemma {:induction false} FirstSeenOrder<K(!new)>(ks: seq<K>)
    ensures forall i, j :: 0 <= i < j < |FirstSeen(ks)| ==>
      FirstIndex(ks, FirstSeen(ks)[i]) < FirstIndex(ks, FirstSeen(ks)[j])
  {
    if ks != [] {
      var init, last := ks[..|ks| - 1], ks[|ks| - 1];
      assert ks == init + [last];
      FirstSeenOrder(init);
      FirstSeenSnoc(init, last);
      var p := FirstSeen(init);
      forall i, j | 0 <= i < j < |FirstSeen(ks)|
        ensures FirstIndex(ks, FirstSeen(ks)[i]) < FirstIndex(ks, FirstSeen(ks)[j])
      {
        FirstIndexSnoc(init, last, p[i]);
        if j < |p| {
          FirstIndexSnoc(init, last, p[j]);
        } else {
          assert FirstSeen(ks)[j] == last && last !in init;
          assert ks[|init|] == last;
        }
      }
    }
  }

  /** The elements of `xs` whose key is `k`, in order. */
  function GroupOf<T(!new), K(==)>(xs: seq<T>, key: T -> K, k: K): (g: seq<T>)
    ensures forall x :: x in g <==> x in xs && key(x) == k
  {
    if xs == [] then []
    else
      var init, last := xs[..|xs| - 1], xs[|xs| - 1];
      assert xs == init + [last];
      GroupOf(init, key, k) + (if key(last) == k then [last] else [])
  }

  lemma GroupOfSnoc<T(!new), K>(xs: seq<T>, x: T, key: T -> K, k: K)
    ensures GroupOf(xs + [x], key, k) == GroupOf(xs, key, k) + (if key(x) == k then [x] else [])
  {
    assert (xs + [x])[..|xs|] == xs;
  }

  /** The sum of `w(x)` over the elements `x` of `xs` whose key is `k`. */
  function Weight<T, K(==)>(xs: seq<T>, key: T -> K, w: T -> int, k: K): int {
    if xs == [] then 0
    else Weight(xs[..|xs| - 1], key, w, k) + (if key(xs[|xs| - 1]) == k then w(xs[|xs| - 1]) else 0)
  }

  function WeightIn<T, K(==)>(xs: seq<T>, key: T -> K, w: T -> int): K -> int {
    k => Weight(xs, key, w, k)
  }

  /** The sum of `w(x)` over the elements of `xs`. */
  function Total<T>(xs: seq<T>, w: T -> int): int {
    if xs == [] then 0 else Total(xs[..|xs| - 1], w) + w(xs[|xs| - 1])
  }

  function Unit<T>(): T -> int {
    x => 1
  }

  function SizeIn<K, V>(m: map<K, seq<V>>): K -> int {
    k => if k in m then |m[k]| else 0
  }

  function ValueIn<K>(m: map<K, int>): K -> int {
    k => if k in m then m[k] else 0
  }

  /** The total length of the lists a dictionary holds. */
  function SizeSum<K, V>(d: Dict<K, seq<V>>): int {
    Total(d.keys, SizeIn(d.entries))
  }

  /** The sum of the counts a `Counter` holds. */
  function CountSum<K>(d: Dict<K, int>): int {
    Total(d.keys, ValueIn(d.entries))
  }

  lemma TotalSnoc<T>(xs: seq<T>, x: T, w: T -> int)
    ensures Total(xs + [x], w) == Total(xs, w) + w(x)
  {
    assert (xs + [x])[..|xs|] == xs;
  }

  lemma WeightSnoc<T, K>(xs: seq<T>, x: T, key: T -> K, w: T -> int, k: K)
    ensures Weight(xs + [x], key, w, k) == Weight(xs, key, w, k) + (if key(x) == k then w(x) else 0)
  {
    assert (xs + [x])[..|xs|] == xs;
  }

  lemma {:induction false} TotalExt<T>(xs: seq<T>, f: T -> int, g: T -> int)
    requires forall i :: 0 <= i < |xs| ==> f(xs[i]) == g(xs[i])
    ensures Total(xs, f) == Total(xs, g)
  {
    if xs != [] {
      TotalExt(xs[..|xs| - 1], f, g);
    }
  }

  lemma {:induction false} TotalUnit<T>(xs: seq<T>)
    ensures Total(xs, Unit<T>()) == |xs|
  {
    if xs != [] {
      TotalUnit(xs[..|xs| - 1]);
    }
  }

  lemma {:induction false} WeightAbsent<T, K>(xs: seq<T>, key: T -> K, w: T -> int, k: K)
    requires k !in Image(xs, key)
    ensures Weight(xs, key, w, k) == 0
  {
    if xs != [] {
      var init, last := xs[..|xs| - 1], xs[|xs| - 1];
      assert xs == init + [last];
      ImageSnoc(init, last, key);
      WeightAbsent(init, key, w, k);
    }
  }

  /** Adding one element `x` to `xs` adds `w(x)` to the total over the distinct keys `ks` iff `ks` holds its key. */
  lemma {:induction false} TotalOfWeightsSnoc<T, K>(ks: seq<K>, xs: seq<T>, x: T, key: T -> K, w: T -> int)
    requires NoDup(ks)
    ensures Total(ks, WeightIn(xs + [x], key, w)) == Total(ks, WeightIn(xs, key, w)) + (if key(x) in ks then w(x) else 0)
  {
    if ks != [] {
      var init, last := ks[..|ks| - 1], ks[|ks| - 1];
      assert ks == init + [last];
      assert NoDup(init);
      TotalOfWeightsSnoc(init, xs, x, key, w);
      WeightSnoc(xs, x, key, w, last);
      assert key(x) in ks <==> key(x) in init || key(x) == last;
      assert key(x) == last ==> key(x) !in init;
    }
  }

  /**
   * Partition sum: summing, over the distinct keys of `xs` in first-seen order, the weight
   * of each key's elements gives the weight of all of `xs`.
   */
  lemma {:induction false} PartitionTotal<T, K(!new)>(xs: seq<T>, key: T -> K, w: T -> int)
    ensures Total(FirstSeen(Image(xs, key)), WeightIn(xs, key, w)) == Total(xs, w)
  {
    if xs != [] {
      var init, last := xs[..|xs| - 1], xs[|xs| - 1];
      assert xs == init + [last];
      PartitionTotal(init, key, w);
      PartitionStep(init, last, key, w);
    }
  }

  lemma PartitionStep<T, K(!new)>(xs: seq<T>, x: T, key: T -> K, w: T -> int)
    requires Total(FirstSeen(Image(xs, key)), WeightIn(xs, key, w)) == Total(xs, w)
    ensures Total(FirstSeen(Image(xs + [x], key)), WeightIn(xs + [x], key, w)) == Total(xs + [x], w)
  {
    var k := key(x);
    ImageSnoc(xs, x, key);
    FirstSeenSnoc(Image(xs, key), k);
    var p := FirstSeen(Image(xs, key));
    TotalOfWeightsSnoc(p, xs, x, key, w);
    TotalSnoc(xs, x, w);
    if k !in p {
      NewKeyTotal(p, xs, x, key, w);
    }
  }

  /** The step of `PartitionTotal` where the last element brings a key not seen before. */
  lemma NewKeyTotal<T, K>(p: seq<K>, xs: seq<T>, x: T, key: T -> K, w: T -> int)
    requires key(x) !in Image(xs, key)
    ensures Total(p + [key(x)], WeightIn(xs + [x], key, w)) == Total(p, WeightIn(xs + [x], key, w)) + w(x)
  {
    var k := key(x);
    TotalSnoc(p, k, WeightIn(xs + [x], key, w));
    WeightSnoc(xs, x, key, w, k);
    WeightAbsent(xs, key, w, k);
  }

  // ---------------------------------------------------------------------------
  // group_by
  // ---------------------------------------------------------------------------

  /** `dd[k].append(v)` on a `defaultdict(list)`: a new key is created at the end with an empty list. */
  function Append<K(==), V>(d: Dict<K, seq<V>>, k: K, v: V): Dict<K, seq<V>> {
    if k in d.entries then Dict(d.keys, d.entries[k := d.entries[k] + [v]])
    else Dict(d.keys + [k], d.entries[k := [v]])
  }

  /** The dictionary `group_by` builds from `xs`, one `append` per element in input order. */
  function Grouping<T, K(==)>(xs: seq<T>, key: T -> K): Dict<K, seq<T>> {
    if xs == [] then Dict([], map[])
    else Append(Grouping(xs[..|xs| - 1], key), key(xs[|xs| - 1]), xs[|xs| - 1])
  }

  lemma {:induction false} GroupOfAbsent<T(!new), K>(xs: seq<T>, key: T -> K, k: K)
    requires k !in Image(xs, key)
    ensures GroupOf(xs, key, k) == []
  {
    if xs != [] {
      var init, last := xs[..|xs| - 1], xs[|xs| - 1];
      assert xs == init + [last];
      ImageSnoc(init, last, key);
      GroupOfAbsent(init, key, k);
    }
  }

  /**
   * What `group_by` computes: the distinct keys in the order they first occur, and under
   * each key exactly the elements with that key, in input order.
   */
  lemma {:induction false} GroupingSpec<T(!new), K(!new)>(xs: seq<T>, key: T -> K)
    ensures var g := Grouping(xs, key);
      && g.keys == FirstSeen(Image(xs, key))
      && (forall k :: k in g.entries <==> k in Image(xs, key))
      && (forall k :: k in g.entries ==> g.entries[k] == GroupOf(xs, key, k))
  {
    if xs != [] {
      var init, last := xs[..|xs| - 1], xs[|xs| - 1];
      assert xs == init + [last];
      var k := key(last);
      GroupingSpec(init, key);
      ImageSnoc(init, last, key);
      FirstSeenSnoc(Image(init, key), k);
      var g0, g := Grouping(init, key), Grouping(xs, key);
      assert g == Append(g0, k, last);
      if k !in g0.entries {
        GroupOfAbsent(init, key, k);
      }
      forall k' | k' in g.entries ensures g.entries[k'] == GroupOf(xs, key, k') {
        GroupOfSnoc(init, last, key, k');
      }
    }
  }

  /** Every element lies in the group of its own key, and a group holds only elements with its key. */
  lemma GroupingPlacement<T(!new), K(!new)>(xs: seq<T>, key: T -> K)
    ensures var g := Grouping(xs, key);
      && ValidDict(g)
      && (forall i :: 0 <= i < |xs| ==> key(xs[i]) in g.entries && xs[i] in g.entries[key(xs[i])])
      && (forall k, x :: k in g.entries && x in g.entries[k] ==> x in xs && key(x) == k)
  {
    var g := Grouping(xs, key);
    GroupingSpec(xs, key);
    forall i | 0 <= i < |xs| ensures key(xs[i]) in g.entries && xs[i] in g.entries[key(xs[i])] {
      assert Image(xs, key)[i] == key(xs[i]);
    }
  }

  lemma {:induction false} GroupSizeIsWeight<T(!new), K>(xs: seq<T>, key: T -> K, k: K)
    ensures |GroupOf(xs, key, k)| == Weight(xs, key, Unit<T>(), k)
  {
    if xs != [] {
      GroupSizeIsWeight(xs[..|xs| - 1], key, k);
    }
  }

  /** The group sizes add up to the number of grouped elements. */
  lemma GroupSizesSum<T(!new), K(!new)>(xs: seq<T>, key: T -> K)
    ensures SizeSum(Grouping(xs, key)) == |xs|
  {
    var g := Grouping(xs, key);
    GroupingSpec(xs, key);
    forall i | 0 <= i < |g.keys| ensures SizeIn(g.entries)(g.keys[i]) == WeightIn(xs, key, Unit<T>())(g.keys[i]) {
      assert g.keys[i] in g.entries;
      GroupSizeIsWeight(xs, key, g.keys[i]);
    }
    TotalExt(g.keys, SizeIn(g.entries), WeightIn(xs, key, Unit<T>()));
    PartitionTotal(xs, key, Unit<T>());
    TotalUnit(xs);
  }

  /** Why `get_key` may stay unbound: neither an attribute nor a callable `fn` was given. */
  datatype GroupError = UnboundKey

  /**
   * `group_by(commits, prop, fn)`: `prop` (modelled by its attribute accessor) takes
   * precedence over `fn`. With neither, the source fails on the first commit, so only an
   * empty input gives an (empty) dictionary.
   */
  method GroupBy<K(==)>(commits: seq<Commit>, prop: Option<Commit -> K>, fn: Option<Commit -> K>)
    returns (r: Result<Dict<K, seq<Commit>>, GroupError>)
    ensures prop.Some? ==> r == Ok(Grouping(commits, prop.value))
    ensures prop.None? && fn.Some? ==> r == Ok(Grouping(commits, fn.value))
    ensures prop.None? && fn.None? ==> r == if commits == [] then Ok(Dict([], map[])) else Err(UnboundKey)
  {
    var getKey := if prop.Some? then prop else fn;
    var dd: Dict<K, seq<Commit>> := Dict([], map[]);
    var i := 0;
    while i < |commits|
      invariant 0 <= i <= |commits|
      invariant getKey.Some? ==> dd == Grouping(commits[..i], getKey.value)
      invariant getKey.None? ==> i == 0 && dd == Dict([], map[])
    {
      if getKey.None? {
        return Err(UnboundKey);
      }
      var commit := commits[i];
      var key := getKey.value(commit);
      if key in dd.entries {
        dd := Dict(dd.keys, dd.entries[key := dd.entries[key] + [commit]]);
      } else {
        dd := Dict(dd.keys + [key], dd.entries[key := [commit]]);
      }
      assert commits[..i + 1][..i] == commits[..i];
      i := i + 1;
    }
    assert commits[..|commits|] == commits;
    return Ok(dd);
  }

  // ---------------------------------------------------------------------------
  // do_count
  // ---------------------------------------------------------------------------

  /** `counter.update({j: n})` on a `Counter`: a new key is created at the end holding `n`. */
  function Add<J(==)>(c: Dict<J, int>, j: J, n: int): Dict<J, int> {
    if j in c.entries then Dict(c.keys, c.entries[j := c.entries[j] + n])
    else Dict(c.keys + [j], c.entries[j := n])
  }

  /** The `Counter` obtained by adding `w(k)` under `fn(k)` for each key `k` of `ks` in order. */
  function Tally<K, J(==)>(ks: seq<K>, w: K -> int, fn: K -> J): Dict<J, int> {
    if ks == [] then Dict([], map[])
    else Add(Tally(ks[..|ks| - 1], w, fn), fn(ks[|ks| - 1]), w(ks[|ks| - 1]))
  }

  /** The `Counter` that `do_count(grouped, fn)` returns. */
  function Counting<K, V, J(==)>(d: Dict<K, seq<V>>, fn: K -> J): Dict<J, int> {
    Tally(d.keys, SizeIn(d.entries), fn)
  }

  /**
   * What the tally computes: the transformed keys in first-seen order, each holding the
   * sum of the weights of the keys that `fn` sends to it.
   */
  lemma {:induction false} TallySpec<K, J(!new)>(ks: seq<K>, w: K -> int, fn: K -> J)
    ensures var c := Tally(ks, w, fn);
      && c.keys == FirstSeen(Image(ks, fn))
      && (forall j :: j in c.entries <==> j in Image(ks, fn))
      && (forall j :: j in c.entries ==> c.entries[j] == Weight(ks, fn, w, j))
  {
    if ks != [] {
      var init, last := ks[..|ks| - 1], ks[|ks| - 1];
      assert ks == init + [last];
      TallySpec(init, w, fn);
      TallyStep(init, last, w, fn);
    }
  }

  lemma TallyStep<K, J(!new)>(ks: seq<K>, k: K, w: K -> int, fn: K -> J)
    requires var c := Tally(ks, w, fn);
      && c.keys == FirstSeen(Image(ks, fn))
      && (forall j :: j in c.entries <==> j in Image(ks, fn))
      && (forall j :: j in c.entries ==> c.entries[j] == Weight(ks, fn, w, j))
    ensures var c := Tally(ks + [k], w, fn);
      && c.keys == FirstSeen(Image(ks + [k], fn))
      && (forall j :: j in c.entries <==> j in Image(ks + [k], fn))
      && (forall j :: j in c.entries ==> c.entries[j] == Weight(ks + [k], fn, w, j))
  {
    TallyKeysStep(ks, k, w, fn);
    TallyValuesStep(ks, k, w, fn);
  }

  /** One `counter.update` keeps the keys in first-seen order and present exactly when seen. */
  lemma TallyKeysStep<K, J(!new)>(ks: seq<K>, k: K, w: K -> int, fn: K -> J)
    requires Tally(ks, w, fn).keys == FirstSeen(Image(ks, fn))
    requires forall j :: j in Tally(ks, w, fn).entries <==> j in Image(ks, fn)
    ensures Tally(ks + [k], w, fn).keys == FirstSeen(Image(ks + [k], fn))
    ensures forall j :: j in Tally(ks + [k], w, fn).entries <==> j in Image(ks + [k], fn)
  {
    assert (ks + [k])[..|ks|] == ks;
    ImageSnoc(ks, k, fn);
    FirstSeenSnoc(Image(ks, fn), fn(k));
  }

  /** One `counter.update` keeps every count equal to the weight of its key. */
  lemma TallyValuesStep<K, J(!new)>(ks: seq<K>, k: K, w: K -> int, fn: K -> J)
    requires forall j :: j in Tally(ks, w, fn).entries <==> j in Image(ks, fn)
    requires forall j :: j in Tally(ks, w, fn).entries ==> Tally(ks, w, fn).entries[j] == Weight(ks, fn, w, j)
    ensures forall j :: j in Tally(ks + [k], w, fn).entries ==> Tally(ks + [k], w, fn).entries[j] == Weight(ks + [k], fn, w, j)
  {
    var c0, c := Tally(ks, w, fn), Tally(ks + [k], w, fn);
    assert (ks + [k])[..|ks|] == ks;
    assert c == Add(c0, fn(k), w(k));
    if fn(k) !in c0.entries {
      WeightAbsent(ks, fn, w, fn(k));
    }
    forall j | j in c.entries ensures c.entries[j] == Weight(ks + [k], fn, w, j) {
      WeightSnoc(ks, k, fn, w, j);
    }
  }

  /** `do_count(grouped, fn)`: a `Counter` updated with each group's length under `fn(key)`. */
  method DoCount<K(==,!new), V, J(==)>(grouped: Dict<K, seq<V>>, fn: K -> J) returns (counter: Dict<J, int>)
    requires ValidDict(grouped)
    ensures counter == Counting(grouped, fn)
  {
    counter := Dict([], map[]);
    for i := 0 to |grouped.keys|
      invariant counter == Tally(grouped.keys[..i], SizeIn(grouped.entries), fn)
    {
      var key := grouped.keys[i];
      var j, n := fn(key), |grouped.entries[key]|;
      if j in counter.entries {
        counter := Dict(counter.keys, counter.entries[j := counter.entries[j] + n]);
      } else {
        counter := Dict(counter.keys + [j], counter.entries[j := n]);
      }
      assert grouped.keys[..i + 1][..i] == grouped.keys[..i];
    }
    assert grouped.keys[..|grouped.keys|] == grouped.keys;
  }

  /** The counts add up to the total size of the groups, however `fn` merges keys. */
  lemma CountingTotal<K, V, J(!new)>(d: Dict<K, seq<V>>, fn: K -> J)
    ensures CountSum(Counting(d, fn)) == SizeSum(d)
  {
    var c := Counting(d, fn);
    TallySpec(d.keys, SizeIn(d.entries), fn);
    forall i | 0 <= i < |c.keys| ensures ValueIn(c.entries)(c.keys[i]) == WeightIn(d.keys, fn, SizeIn(d.entries))(c.keys[i]) {
      assert c.keys[i] in c.entries;
    }
    TotalExt(c.keys, ValueIn(c.entries), WeightIn(d.keys, fn, SizeIn(d.entries)));
    PartitionTotal(d.keys, fn, SizeIn(d.entries));
  }

  lemma {:induction false} WeightSingle<K, J>(ks: seq<K>, fn: K -> J, w: K -> int, k: K)
    requires NoDup(ks) && k in ks
    requires forall a :: a in ks && fn(a) == fn(k) ==> a == k
    ensures Weight(ks, fn, w, fn(k)) == w(k)
  {
    var init, last := ks[..|ks| - 1], ks[|ks| - 1];
    assert ks == init + [last];
    WeightSnoc(init, last, fn, w, fn(k));
    if last == k {
      LastKeyUnshared(ks, fn, k);
      WeightAbsent(init, fn, w, fn(k));
    } else {
      assert last in ks;
      assert k in init;
      assert NoDup(init);
      WeightSingle(init, fn, w, k);
    }
  }

  /** The last key, sharing its image with no other key, has an image no earlier key has. */
  lemma LastKeyUnshared<K, J>(ks: seq<K>, fn: K -> J, k: K)
    requires NoDup(ks) && ks != [] && ks[|ks| - 1] == k
    requires forall a :: a in ks && fn(a) == fn(k) ==> a == k
    ensures fn(k) !in Image(ks[..|ks| - 1], fn)
  {
    var init := ks[..|ks| - 1];
    forall i | 0 <= i < |init| ensures Image(init, fn)[i] != fn(k) {
      assert init[i] == ks[i] && ks[i] in ks;
    }
  }

  /** With a key function that is one-to-one on the keys, each key counts exactly its own group. */
  lemma CountingInjective<K(!new), V, J(!new)>(d: Dict<K, seq<V>>, fn: K -> J, k: K)
    requires ValidDict(d) && k in d.keys
    requires forall a, b :: a in d.keys && b in d.keys && fn(a) == fn(b) ==> a == b
    ensures fn(k) in Counting(d, fn).entries
    ensures Counting(d, fn).entries[fn(k)] == |d.entries[k]|
  {
    TallySpec(d.keys, SizeIn(d.entries), fn);
    var i :| 0 <= i < |d.keys| && d.keys[i] == k;
    assert Image(d.keys, fn)[i] == fn(k);
    WeightSingle(d.keys, fn, SizeIn(d.entries), k);
  }

  /** `lambda e: e`, the default `fn` of do_count. */
  function Id<K>(k: K): K {
    k
  }

  /** With the default `fn`, `do_count` maps every key to the length of its group. */
  lemma CountingIdentity<K(!new), V>(d: Dict<K, seq<V>>, k: K)
    requires ValidDict(d) && k in d.keys
    ensures k in Counting(d, Id).entries && Counting(d, Id).entries[k] == |d.entries[k]|
  {
    CountingInjective(d, Id, k);
  }

  lemma ImageId<K>(ks: seq<K>)
    ensures Image(ks, Id) == ks
  {
  }

  /**
   * `do_count(group_by(xs, fn=key))`: one count per key that occurs, the number of
   * elements with that key, and the counts add up to the number of elements.
   */
  lemma CountGrouping<T(!new), K(!new)>(xs: seq<T>, key: T -> K)
    ensures var c := Counting(Grouping(xs, key), Id);
      && CountSum(c) == |xs|
      && (c.keys == [] <==> xs == [])
      && (forall k :: k in c.entries <==> k in Image(xs, key))
      && (forall k :: k in c.entries ==> c.entries[k] == |GroupOf(xs, key, k)|)
  {
    var g := Grouping(xs, key);
    var c := Counting(g, Id);
    GroupingSpec(xs, key);
    GroupingPlacement(xs, key);
    TallySpec(g.keys, SizeIn(g.entries), Id);
    ImageId(g.keys);
    CountingTotal(g, Id);
    GroupSizesSum(xs, key);
    forall k | k in c.entries ensures c.entries[k] == |GroupOf(xs, key, k)| {
      CountingIdentity(g, k);
    }
    if xs != [] {
      assert Image(xs, key)[0] in c.entries;
    }
  }

  // ---------------------------------------------------------------------------
  // get_average_count_by_author_in_year, up to the mean
  // ---------------------------------------------------------------------------

  /** `lambda c: get_week_number(c.created.date())`. */
  function WeekKey(cal: Calendar): Commit -> int {
    (c: Commit) => if c.created.Some? then cal.isoWeek(c.created.value) else 0
  }

  /** The commits of the given year whose author contains `substring`, as filtered in the source. */
  function YearAuthorFilter(commits: seq<Commit>, substring: string, cal: Calendar, year: int): seq<Option<Commit -> bool>> {
    [Some(WholeYear(cal, year)), Some(OnlyAuthors(GetAuthors(commits, substring)))]
  }

  /**
   * The weekly counts whose mean the source prints: the counts add up to the number of
   * matching commits, there is at least one week exactly when some commit matches (the
   * mean of no weeks is undefined), the weeks are those of the matching commits, and each week counts the matching commits of that week.
   */
  method WeeklyCounts(commits: seq<Commit>, substring: string, cal: Calendar, year: int) returns (counts: Dict<int, int>)
    ensures var matching := SelectAll(commits, YearAuthorFilter(commits, substring, cal, year));
      && CountSum(counts) == |matching|
      && (counts.keys == [] <==> matching == [])
      && (forall w :: w in counts.entries <==> w in Image(matching, WeekKey(cal)))
      && (forall w :: w in counts.entries ==> counts.entries[w] == |GroupOf(matching, WeekKey(cal), w)|)
  {
    var authors := GetAuthors(commits, substring);
    var filtered := IterateOver(commits, [Some(WholeYear(cal, year)), Some(OnlyAuthors(authors))]);
    var grouped := GroupBy(filtered, None, Some(WeekKey(cal)));
    var byWeek := grouped.value;
    GroupingPlacement(filtered, WeekKey(cal));
    counts := DoCount(byWeek, Id);
    CountGrouping(filtered, WeekKey(cal));
  }
}
