/** The ranking and parsing logic of top5.py, lifted out of the psutil,
    subprocess and terminal calls around it: the per-process queries and
    the captured output of the shell pipeline are inputs. */
module Top5 {
  import opened Wrappers
  import opened PyText

  // =====================================================================
  // Processes ranked by memory (get_top_memory_processes)

  /** One row of `process_memory`: pid, name, memory percentage (the sort
      key, an integer here), resident set size and owner. */
  datatype ProcessInfo = ProcessInfo(pid: int, name: Str, score: int, rss: nat, user: Str)

  /** The exceptions that querying one process can raise. */
  datatype QueryError = NoSuchProcess | AccessDenied | ZombieProcess | OtherError

  /** The outcome of the `try` block for one process: a row, or the
      exception that ended the block. */
  datatype ProcessQuery = Read(info: ProcessInfo) | Failed(error: QueryError)

  /** What `psutil.process_iter()` gives: the outcome for every process, in
      discovery order, or the exception it raised. */
  datatype ProcessListing = ListingFailed | Listed(queries: seq<ProcessQuery>)

  /** The rows the loop appends: one per successful query, in discovery order. */
  function Successes(qs: seq<ProcessQuery>): (r: seq<ProcessInfo>)
    ensures |r| <= |qs|
    decreases |qs|
  {
    if qs == [] then []
    else
      var last := qs[|qs| - 1];
      Successes(qs[..|qs| - 1]) + (if last.Read? then [last.info] else [])
  }

  /** The loop of lines 31-43: a failed query adds nothing and does not
      stop the loop. */
  method CollectProcesses(qs: seq<ProcessQuery>) returns (rows: seq<ProcessInfo>)
    ensures rows == Successes(qs)
  {
    rows := [];
    var i := 0;
    while i < |qs|
      invariant 0 <= i <= |qs|
      invariant rows == Successes(qs[..i])
    {
      assert qs[..i + 1][..i] == qs[..i];
      if qs[i].Read? {
        rows := rows + [qs[i].info];
      }
      i := i + 1;
    }
    assert qs[..|qs|] == qs;
  }

  lemma {:induction false} SuccessesAppend(a: seq<ProcessQuery>, b: seq<ProcessQuery>)
    ensures Successes(a + b) == Successes(a) + Successes(b)
    decreases |b|
  {
    if b == [] {
      assert a + b == a;
    } else {
      var ab := a + b;
      assert ab[..|ab| - 1] == a + b[..|b| - 1];
      assert ab[|ab| - 1] == b[|b| - 1];
      SuccessesAppend(a, b[..|b| - 1]);
    }
  }

  /** A row is collected exactly when some query read it. */
  lemma {:induction false} SuccessesMember(qs: seq<ProcessQuery>, x: ProcessInfo)
    ensures x in Successes(qs) <==> Read(x) in qs
    decreases |qs|
  {
    if qs != [] {
      var init := qs[..|qs| - 1];
      SuccessesMember(init, x);
      assert qs == init + [qs[|qs| - 1]];
    }
  }

  /** Scores from highest to lowest. */
  predicate SortedByScore(s: seq<ProcessInfo>) {
    forall i, j :: 0 <= i < j < |s| ==> s[i].score >= s[j].score
  }

  /** Puts `x` in front of the first row whose score is not above its own,
      so that `x` stays ahead of the rows with its score. */
  function Insert(x: ProcessInfo, s: seq<ProcessInfo>): (r: seq<ProcessInfo>)
    ensures |r| == |s| + 1
    decreases |s|
  {
    if s == [] || x.score >= s[0].score then [x] + s
    else [s[0]] + Insert(x, s[1..])
  }

  /** `sorted(rows, key=lambda x: x[2], reverse=True)`, as an insertion sort. */
  function SortByScore(s: seq<ProcessInfo>): (r: seq<ProcessInfo>)
    ensures |r| == |s|
    decreases |s|
  {
    if s == [] then [] else Insert(s[0], SortByScore(s[1..]))
  }

  lemma {:induction false} InsertPermutes(x: ProcessInfo, s: seq<ProcessInfo>)
    ensures multiset(Insert(x, s)) == multiset(s) + multiset{x}
    decreases |s|
  {
    if s != [] && x.score < s[0].score {
      InsertPermutes(x, s[1..]);
      assert s == [s[0]] + s[1..];
    }
  }

  lemma {:induction false} InsertSorted(x: ProcessInfo, s: seq<ProcessInfo>)
    requires SortedByScore(s)
    ensures SortedByScore(Insert(x, s))
    decreases |s|
  {
    if s != [] && x.score < s[0].score {
      var s' := s[1..];
      InsertSorted(x, s');
      InsertPermutes(x, s');
      var r := Insert(x, s');
      forall j | 0 <= j < |r| ensures s[0].score >= r[j].score {
        assert r[j] in multiset(r);
        assert r[j] == x || r[j] in multiset(s');
      }
    }
  }

  /** The sort gives a permutation of the rows. */
  lemma {:induction false} SortPermutes(s: seq<ProcessInfo>)
    ensures multiset(SortByScore(s)) == multiset(s)
    decreases |s|
  {
    if s != [] {
      SortPermutes(s[1..]);
      InsertPermutes(s[0], SortByScore(s[1..]));
      assert s == [s[0]] + s[1..];
    }
  }

  /** The sort puts the highest score first. */
  lemma {:induction false} SortSorted(s: seq<ProcessInfo>)
    ensures SortedByScore(SortByScore(s))
    decreases |s|
  {
    if s != [] {
      SortSorted(s[1..]);
      InsertSorted(s[0], SortByScore(s[1..]));
    }
  }

  /** The rows of `s` whose score is `k`, in their order in `s`. */
  function WithScore(s: seq<ProcessInfo>, k: int): (r: seq<ProcessInfo>)
    ensures |r| <= |s|
    decreases |s|
  {
    if s == [] then []
    else (if s[0].score == k then [s[0]] else []) + WithScore(s[1..], k)
  }

  lemma WithScoreCons(x: ProcessInfo, s: seq<ProcessInfo>, k: int)
    ensures WithScore([x] + s, k) == WithScore([x], k) + WithScore(s, k)
  {
    assert ([x] + s)[1..] == s;
    assert [x][1..] == [];
  }

  lemma {:induction false} WithScoreAppend(a: seq<ProcessInfo>, b: seq<ProcessInfo>, k: int)
    ensures WithScore(a + b, k) == WithScore(a, k) + WithScore(b, k)
    decreases |a|
  {
    if a == [] {
      assert a + b == b;
    } else {
      var ab := a + b;
      var head := if a[0].score == k then [a[0]] else [];
      assert ab[0] == a[0];
      assert ab[1..] == a[1..] + b;
      WithScoreAppend(a[1..], b, k);
      calc {
        WithScore(ab, k);
        head + WithScore(a[1..] + b, k);
        head + (WithScore(a[1..], k) + WithScore(b, k));
        (head + WithScore(a[1..], k)) + WithScore(b, k);
        WithScore(a, k) + WithScore(b, k);
      }
    }
  }

  lemma WithScoreOne(x: ProcessInfo, k: int)
    ensures WithScore([x], k) == if x.score == k then [x] else []
  {
    assert [x][1..] == [];
  }

  lemma {:induction false} InsertStable(x: ProcessInfo, s: seq<ProcessInfo>, k: int)
    requires SortedByScore(s)
    ensures WithScore(Insert(x, s), k) == WithScore([x] + s, k)
    decreases |s|
  {
    if s != [] && x.score < s[0].score {
      var s' := s[1..];
      assert SortedByScore(s') by {
        forall i, j | 0 <= i < j < |s'| ensures s'[i].score >= s'[j].score {
          assert s'[i] == s[i + 1] && s'[j] == s[j + 1];
        }
      }
      InsertStable(x, s', k);
      WithScoreOne(x, k);
      WithScoreOne(s[0], k);
      assert s == [s[0]] + s';
      calc {
        WithScore(Insert(x, s), k);
        WithScore([s[0]] + Insert(x, s'), k);
        { WithScoreCons(s[0], Insert(x, s'), k); }
        WithScore([s[0]], k) + WithScore(Insert(x, s'), k);
        { WithScoreCons(x, s', k); }
        WithScore([s[0]], k) + (WithScore([x], k) + WithScore(s', k));
        WithScore([x], k) + (WithScore([s[0]], k) + WithScore(s', k));
        { WithScoreCons(s[0], s', k); }
        WithScore([x], k) + WithScore(s, k);
        { WithScoreCons(x, s, k); }
        WithScore([x] + s, k);
      }
    }
  }

  /** Stability: the sort keeps the rows of every score in the order they
      were discovered in. */
  lemma {:induction false} SortStable(s: seq<ProcessInfo>, k: int)
    ensures WithScore(SortByScore(s), k) == WithScore(s, k)
    decreases |s|
  {
    if s != [] {
      SortStable(s[1..], k);
      SortSorted(s[1..]);
      InsertStable(s[0], SortByScore(s[1..]), k);
      WithScoreCons(s[0], SortByScore(s[1..]), k);
      assert s == [s[0]] + s[1..];
      WithScoreCons(s[0], s[1..], k);
    }
  }

  /** `s[:n]`: the first `n` elements, or all of them when there are fewer;
      a negative `n` leaves out the last `-n` elements. */
  function SliceTo<T>(s: seq<T>, n: int): (r: seq<T>)
    ensures |r| == if 0 <= n then (if n <= |s| then n else |s|)
                   else (if 0 <= |s| + n then |s| + n else 0)
    ensures r == s[..|r|]
  {
    if 0 <= n then (if n <= |s| then s[..n] else s)
    else if 0 <= |s| + n then s[..|s| + n]
    else []
  }

  /** What `get_top_memory_processes(n)` returns for a listing. */
  function RankProcesses(listing: ProcessListing, n: int): seq<ProcessInfo> {
    match listing
    case ListingFailed => []
    case Listed(qs) => SliceTo(SortByScore(Successes(qs)), n)
  }

  /** `get_top_memory_processes(n)`: collect the rows, sort them, slice. */
  method GetTopMemoryProcesses(listing: ProcessListing, n: int) returns (top: seq<ProcessInfo>)
    ensures top == RankProcesses(listing, n)
    ensures listing.ListingFailed? ==> top == []
  {
    if listing.ListingFailed? {
      return [];
    }
    var rows := CollectProcesses(listing.queries);
    top := SliceTo(SortByScore(rows), n);
  }

  /** For `n >= 0` the ranking holds `min(n, number of successful queries)` rows. */
  lemma RankedLength(qs: seq<ProcessQuery>, n: int)
    requires 0 <= n
    ensures |RankProcesses(Listed(qs), n)| == if n <= |Successes(qs)| then n else |Successes(qs)|
  {
  }

  /** The ranking goes from the highest score to the lowest. */
  lemma RankedSorted(listing: ProcessListing, n: int)
    ensures SortedByScore(RankProcesses(listing, n))
  {
    if listing.Listed? {
      var sorted := SortByScore(Successes(listing.queries));
      var top := RankProcesses(listing, n);
      SortSorted(Successes(listing.queries));
      assert top == sorted[..|top|];
    }
  }

  /** Among the ranked rows of any one score, the order is discovery order,
      and they are the first rows of that score that were discovered. */
  lemma RankedStable(qs: seq<ProcessQuery>, n: int, k: int)
    ensures var ranked := WithScore(RankProcesses(Listed(qs), n), k);
            var all := WithScore(Successes(qs), k);
            |ranked| <= |all| && ranked == all[..|ranked|]
  {
    var sorted := SortByScore(Successes(qs));
    var top := RankProcesses(Listed(qs), n);
    assert sorted == top + sorted[|top|..];
    WithScoreAppend(top, sorted[|top|..], k);
    SortStable(Successes(qs), k);
  }

  /** Every ranked row was read successfully, and no row is ranked more
      often than it was read. */
  lemma RankedFromSuccesses(qs: seq<ProcessQuery>, n: int)
    ensures multiset(RankProcesses(Listed(qs), n)) <= multiset(Successes(qs))
    ensures forall x :: x in RankProcesses(Listed(qs), n) ==> Read(x) in qs
  {
    var sorted := SortByScore(Successes(qs));
    var top := RankProcesses(Listed(qs), n);
    assert sorted == top + sorted[|top|..];
    assert multiset(sorted) == multiset(top) + multiset(sorted[|top|..]);
    SortPermutes(Successes(qs));
    forall x | x in top ensures Read(x) in qs {
      assert x in multiset(sorted);
      SuccessesMember(qs, x);
    }
  }

  /** Of a sorted arrangement of `rows`, nothing left out of a prefix
      `top` scores above the last row of `top`. */
  lemma SortedPrefixBound(rows: seq<ProcessInfo>, sorted: seq<ProcessInfo>, top: seq<ProcessInfo>)
    requires SortedByScore(sorted) && multiset(sorted) == multiset(rows)
    requires 0 < |top| <= |sorted| && top == sorted[..|top|]
    ensures forall x :: x in multiset(rows) - multiset(top) ==> x.score <= top[|top| - 1].score
  {
    var rest := sorted[|top|..];
    assert sorted == top + rest;
    assert multiset(rows) - multiset(top) == multiset(rest);
    forall x: ProcessInfo | x in multiset(rest) ensures x.score <= top[|top| - 1].score {
      var j :| 0 <= j < |rest| && rest[j] == x;
      assert sorted[|top| + j] == x;
      assert sorted[|top| - 1] == top[|top| - 1];
    }
  }

  lemma SortPrefixBound(rows: seq<ProcessInfo>, top: seq<ProcessInfo>)
    requires 0 < |top| <= |rows| && top == SortByScore(rows)[..|top|]
    ensures forall x :: x in multiset(rows) - multiset(top) ==> x.score <= top[|top| - 1].score
  {
    SortPermutes(rows);
    SortSorted(rows);
    SortedPrefixBound(rows, SortByScore(rows), top);
  }

  /** The ranked rows are the first rows of the sorted successes. */
  lemma RankedPrefix(qs: seq<ProcessQuery>, n: int)
    ensures var top := RankProcesses(Listed(qs), n);
            |top| <= |Successes(qs)| && top == SortByScore(Successes(qs))[..|top|]
  {
  }

  /** Top N: every successful row that was left out scores no higher than
      the last ranked row. */
  lemma RankedLeftOutBelow(qs: seq<ProcessQuery>, n: int)
    requires RankProcesses(Listed(qs), n) != []
    ensures var top := RankProcesses(Listed(qs), n);
            forall x :: x in multiset(Successes(qs)) - multiset(top) ==> x.score <= top[|top| - 1].score
  {
    RankedPrefix(qs, n);
    SortPrefixBound(Successes(qs), RankProcesses(Listed(qs), n));
  }

  /** A query that fails, wherever it happens and whatever it raises,
      changes nothing in the ranking. */
  lemma RankedIgnoresFailure(qs: seq<ProcessQuery>, i: nat, e: QueryError, n: int)
    requires i <= |qs|
    ensures RankProcesses(Listed(qs[..i] + [Failed(e)] + qs[i..]), n) == RankProcesses(Listed(qs), n)
  {
    var a, b := qs[..i], qs[i..];
    var f: seq<ProcessQuery> := [Failed(e)];
    SuccessesAppend(a + f, b);
    SuccessesAppend(a, f);
    SuccessesAppend(a, b);
    assert Successes(f) == [] by {
      assert f[..0] == [];
    }
    assert a + b == qs;
    assert Successes(a + f + b) == Successes(qs);
  }

  /** The scenario of a process A discovered before two processes B and C
      that share a higher score: with N = 2 the ranking is B then C, and A
      is left out. */
  lemma RankedTieKeepsDiscoveryOrder(a: ProcessInfo, b: ProcessInfo, c: ProcessInfo)
    requires a.score < b.score == c.score
    ensures RankProcesses(Listed([Read(a), Read(b), Read(c)]), 2) == [b, c]
  {
    var qs := [Read(a), Read(b), Read(c)];
    assert qs[..2][..1] == [Read(a)];
    assert qs[..2] == [Read(a), Read(b)];
    assert Successes([Read(a)]) == [a] by {
      assert [Read(a)][..0] == [];
    }
    assert Successes(qs[..2]) == [a, b];
    assert Successes(qs) == [a, b, c];
    assert SortByScore([c]) == [c];
    assert [b, c][1..] == [c];
    assert SortByScore([b, c]) == [b, c];
    assert [a, b, c][1..] == [b, c];
    assert [b, c][1..] == [c];
    assert Insert(a, [c]) == [c, a];
    assert Insert(a, [b, c]) == [b, c, a];
    assert SortByScore([a, b, c]) == [b, c, a];
  }

  // =====================================================================
  // Disk counters of one process (get_process_disk_usage)

  /** What `psutil.Process(pid).io_counters()` gives, or the exception it raises. */
  datatype IoQuery = IoCounters(readBytes: nat, writeBytes: nat) | IoFailed(error: QueryError)

  /** `get_process_disk_usage`: the read and write counters, or (0, 0)
      whatever the failure. */
  function DiskUsage(q: IoQuery): (r: (nat, nat))
    ensures q.IoCounters? ==> r == (q.readBytes, q.writeBytes)
    ensures q.IoFailed? ==> r == (0, 0)
  {
    match q
    case IoCounters(rd, wr) => (rd, wr)
    case IoFailed(_) => (0, 0)
  }

  /** The counters query of a pid; a pid that is gone raises NoSuchProcess. */
  function IoOf(io: map<int, IoQuery>, pid: int): IoQuery {
    if pid in io then io[pid] else IoFailed(NoSuchProcess)
  }

  /** The rows that display_top_memory_processes shows: every ranked process,
      in rank order, with the disk counters of its pid. */
  function WithDiskUsage(top: seq<ProcessInfo>, io: map<int, IoQuery>): (r: seq<(ProcessInfo, nat, nat)>)
    ensures |r| == |top|
    ensures forall i :: 0 <= i < |r| ==> r[i].0 == top[i]
    ensures forall i :: 0 <= i < |r| && IoOf(io, top[i].pid).IoFailed? ==> r[i].1 == 0 && r[i].2 == 0
    ensures forall i :: 0 <= i < |r| && IoOf(io, top[i].pid).IoCounters? ==>
              r[i].1 == IoOf(io, top[i].pid).readBytes && r[i].2 == IoOf(io, top[i].pid).writeBytes
  {
    seq(|top|, i requires 0 <= i < |top| =>
      var u := DiskUsage(IoOf(io, top[i].pid)); (top[i], u.0, u.1))
  }

  // =====================================================================
  // Largest files (the output parsing of get_top_disk_files)

  /** `os.name == 'nt'` selects the Windows branch. */
  datatype Platform = Windows | Posix

  /** One `(path, size)` pair of `files_and_sizes`. */
  datatype FileEntry = FileEntry(path: Str, size: int)

  /** `subprocess.run(...)`: the captured standard output, or the exception
      it raised. */
  datatype CommandResult = CommandFailed | Captured(stdout: Str)

  /** `result.stdout.strip().splitlines()`. */
  function OutputLines(stdout: Str): seq<Str> {
    SplitLines(Strip(stdout))
  }

  /** A line of `du -b` output: exactly two tokens, size first (lines 114-122). */
  function PosixEntry(line: Str): Option<FileEntry> {
    var parts := Tokens(line);
    if |parts| == 2 then
      match ParseInt(parts[0])
      case Some(size) => Some(FileEntry(parts[1], size))
      case None => None
    else None
  }

  /** A line of `forfiles` output: at least two tokens, path first and size
      second; further tokens are ignored (lines 98-106). */
  function WindowsEntry(line: Str): Option<FileEntry> {
    var parts := Tokens(line);
    if |parts| >= 2 then
      match ParseInt(parts[1])
      case Some(size) => Some(FileEntry(parts[0], size))
      case None => None
    else None
  }

  function LineEntry(platform: Platform, line: Str): Option<FileEntry> {
    match platform
    case Windows => WindowsEntry(line)
    case Posix => PosixEntry(line)
  }

  /** The pairs the loop appends: one per valid line, in line order. */
  function ParseEntries(platform: Platform, lines: seq<Str>): (r: seq<FileEntry>)
    ensures |r| <= |lines|
    decreases |lines|
  {
    if lines == [] then []
    else
      var e := LineEntry(platform, lines[|lines| - 1]);
      ParseEntries(platform, lines[..|lines| - 1]) + (if e.Some? then [e.value] else [])
  }

  /** The loop of lines 98-106 (Windows) or 114-122 (Posix): a valid
      line appends its pair, an invalid one is skipped. */
  method ParseLines(platform: Platform, lines: seq<Str>) returns (files: seq<FileEntry>)
    ensures files == ParseEntries(platform, lines)
  {
    files := [];
    var i := 0;
    while i < |lines|
      invariant 0 <= i <= |lines|
      invariant files == ParseEntries(platform, lines[..i])
    {
      assert lines[..i + 1][..i] == lines[..i];
      var entry := LineEntry(platform, lines[i]);
      if entry.Some? {
        files := files + [entry.value];
      }
      i := i + 1;
    }
    assert lines[..|lines|] == lines;
  }

  /** `get_top_disk_files` once the command has run: the output lines of
      the platform's branch, parsed; a failed command gives []. */
  method GetTopDiskFiles(platform: Platform, result: CommandResult) returns (files: seq<FileEntry>)
    ensures result.CommandFailed? ==> files == []
    ensures result.Captured? ==> files == ParseEntries(platform, OutputLines(result.stdout))
  {
    if result.CommandFailed? {
      return [];
    }
    var lines := OutputLines(result.stdout);
    files := ParseLines(platform, lines);
  }

  /** Parsing works line by line: the pairs of a longer output are those of
      its first lines followed by those of the rest, so order is kept. */
  lemma ParseEntriesLast(platform: Platform, lines: seq<Str>)
    requires lines != []
    ensures ParseEntries(platform, lines) ==
              ParseEntries(platform, lines[..|lines| - 1]) + ParseEntries(platform, [lines[|lines| - 1]])
  {
    var last: seq<Str> := [lines[|lines| - 1]];
    assert last[..0] == [];
  }

  lemma {:induction false} ParseEntriesAppend(platform: Platform, a: seq<Str>, b: seq<Str>)
    ensures ParseEntries(platform, a + b) == ParseEntries(platform, a) + ParseEntries(platform, b)
    decreases |b|
  {
    if b == [] {
      assert a + b == a;
    } else {
      var ab := a + b;
      var init, last := b[..|b| - 1], [b[|b| - 1]];
      assert ab[..|ab| - 1] == a + init;
      assert ab[|ab| - 1] == b[|b| - 1];
      ParseEntriesAppend(platform, a, init);
      ParseEntriesLast(platform, ab);
      ParseEntriesLast(platform, b);
    }
  }

  /** A pair is in the result exactly when some line parses to it. */
  lemma {:induction false} ParseEntriesMember(platform: Platform, lines: seq<Str>, e: FileEntry)
    ensures e in ParseEntries(platform, lines) <==>
              exists i :: 0 <= i < |lines| && LineEntry(platform, lines[i]) == Some(e)
    decreases |lines|
  {
    if lines != [] {
      var init := lines[..|lines| - 1];
      ParseEntriesMember(platform, init, e);
      assert forall i :: 0 <= i < |init| ==> init[i] == lines[i];
      if e in ParseEntries(platform, lines) {
        var last := LineEntry(platform, lines[|lines| - 1]);
        if last != Some(e) {
          assert e in ParseEntries(platform, init);
        }
      }
    }
  }

  /** The Posix rule: a line is kept exactly when it has two tokens and the
      first is an integer; the pair is (second token, that integer). */
  lemma PosixEntryRule(line: Str)
    ensures PosixEntry(line).Some? <==> |Tokens(line)| == 2 && IsInt(Tokens(line)[0])
    ensures PosixEntry(line).Some? ==>
              PosixEntry(line).value == FileEntry(Tokens(line)[1], ParseInt(Tokens(line)[0]).value)
  {
  }

  /** The Windows rule: a line is kept exactly when it has at least two
      tokens and the second is an integer; the pair is (first token, that
      integer). */
  lemma WindowsEntryRule(line: Str)
    ensures WindowsEntry(line).Some? <==> |Tokens(line)| >= 2 && IsInt(Tokens(line)[1])
    ensures WindowsEntry(line).Some? ==>
              WindowsEntry(line).value == FileEntry(Tokens(line)[0], ParseInt(Tokens(line)[1]).value)
  {
  }

  const TAB: CodePoint := 9

  /** A `du -b` line, "size<TAB>path". */
  function DuLine(e: FileEntry): Str {
    Show(e.size) + [TAB] + e.path
  }

  /** Round trip: the Posix branch reads back the pair of a `du -b` line,
      provided the path holds no whitespace. */
  lemma PosixEntryOfDuLine(e: FileEntry)
    requires IsWord(e.path)
    ensures PosixEntry(DuLine(e)) == Some(e)
  {
    var rest := [TAB] + e.path;
    assert DuLine(e) == Show(e.size) + rest;
    TokensOfWord(Show(e.size), rest);
    assert rest[1..] == e.path;
    TokensOfWord(e.path, []);
    assert e.path + [] == e.path;
    ParseIntOfShow(e.size);
  }

  /** A `du -b` line whose path holds a blank has more than two tokens, so
      the Posix branch skips that file. */
  lemma PosixSkipsPathWithBlank(e: FileEntry, dir: Str, file: Str)
    requires IsWord(dir) && IsWord(file)
    requires e.path == dir + [SPACE] + file
    ensures PosixEntry(DuLine(e)) == None
  {
    assert DuLine(e) == Show(e.size) + ([TAB] + (dir + ([SPACE] + file)));
    TokensOfThree(Show(e.size), TAB, dir, SPACE, file);
  }

  /** A `forfiles` line "path size", possibly followed by further words. */
  function WindowsLine(e: FileEntry, extra: seq<Str>): Str {
    JoinWords([e.path, Show(e.size)] + extra)
  }

  lemma WindowsEntryOfTokens(line: Str, e: FileEntry)
    requires |Tokens(line)| >= 2 && Tokens(line)[0] == e.path
    requires ParseInt(Tokens(line)[1]) == Some(e.size)
    ensures WindowsEntry(line) == Some(e)
  {
  }

  /** Round trip: the Windows branch reads back "path size", whatever
      further words follow. */
  lemma WindowsEntryOfLine(e: FileEntry, extra: seq<Str>)
    requires IsWord(e.path)
    requires forall i :: 0 <= i < |extra| ==> IsWord(extra[i])
    ensures WindowsEntry(WindowsLine(e, extra)) == Some(e)
  {
    var ws := [e.path, Show(e.size)] + extra;
    assert forall i :: 2 <= i < |ws| ==> ws[i] == extra[i - 2];
    TokensOfJoin(ws);
    var line := JoinWords(ws);
    assert Tokens(line)[1] == Show(e.size);
    ParseIntOfShow(e.size);
    WindowsEntryOfTokens(line, e);
  }
}
