/** The issue summarizer of src/issue-summarize.ts: finding an issue file in
    the `open`, `review` and `stuck` directories, abbreviating its messages by
    position, reading `--index` specifications, expanding the selected
    messages back to full text, and rendering the terminal report. */
module IssueSummarize {
  import opened Wrappers
  import opened JsString

  /** Limit for the first and the last message (and for a lone message). */
  const FIRST_LAST_LIMIT: nat := 230
  /** Limit for every message strictly between the first and the last. */
  const MIDDLE_LIMIT: nat := 70
  /** The literal appended to a truncated message: the three characters
      U+00E2 U+20AC U+00A6, which is how the UTF-8 bytes of a horizontal
      ellipsis read when decoded as Windows-1252. */
  const ELLIPSIS: string := "\U{00E2}\U{20AC}\U{00A6}"
  const MORE_HINT: string := "Pass `--index N` or `--index M,N` to see more."

  datatype IssueStatus = Open | Review | Stuck

  function StatusName(status: IssueStatus): string {
    match status
    case Open => "open"
    case Review => "review"
    case Stuck => "stuck"
  }

  datatype LocatedIssue = LocatedIssue(filePath: string, status: IssueStatus, filename: string)

  datatype Author = User | Claude

  function AuthorName(author: Author): string {
    match author
    case User => "user"
    case Claude => "claude"
  }

  /** A message as the summarizer reads it: index, author and content. */
  datatype AuthoredMessage = AuthoredMessage(index: nat, author: Author, content: string)

  /** A message prepared for display, keeping the untruncated text for expansion. */
  datatype AbbreviatedMessage = AbbreviatedMessage(
    index: nat, author: Author, content: string, isAbbreviated: bool, fullContent: string)

  /** A summary; the last two fields are the optional `filterToIndices` and
      `isSingleIndex` that an expansion attaches. */
  datatype IssueSummary = IssueSummary(
    issue: LocatedIssue,
    abbreviatedMessages: seq<AbbreviatedMessage>,
    messageCount: nat,
    filterToIndices: Option<seq<nat>>,
    isSingleIndex: Option<bool>)

  /** The result of a valid index specification. */
  datatype IndexSelection = IndexSelection(indices: seq<nat>, isSingleIndex: bool)

  /** The unused position argument of `abbreviateMessage`. */
  datatype Position = First | Middle | Last

  // ---------------------------------------------------------------------------
  // Locating issue files

  /** `path.join(dir, name)`, without normalisation. */
  function PathJoin(dir: string, name: string): string {
    dir + "/" + name
  }

  /** The path probed for `filename` in the directory of `status`. */
  function CandidatePath(issuesDir: string, status: IssueStatus, filename: string): string {
    PathJoin(PathJoin(issuesDir, StatusName(status)), filename)
  }

  /** Place of a status in the search order open, review, stuck. */
  function SearchRank(status: IssueStatus): nat {
    match status
    case Open => 0
    case Review => 1
    case Stuck => 2
  }

  /** The first status directory, in search order, that holds `filename`. */
  function Locate(filename: string, issuesDir: string, existing: set<string>): (r: Option<LocatedIssue>)
    ensures r.None? <==> forall status :: CandidatePath(issuesDir, status, filename) !in existing
    ensures r.Some? ==>
      && r.value.filename == filename
      && r.value.filePath == CandidatePath(issuesDir, r.value.status, filename)
      && r.value.filePath in existing
    ensures r.Some? ==> forall status :: SearchRank(status) < SearchRank(r.value.status) ==>
      CandidatePath(issuesDir, status, filename) !in existing
    ensures CandidatePath(issuesDir, Open, filename) in existing ==> r.Some? && r.value.status == Open
  {
    if CandidatePath(issuesDir, Open, filename) in existing then
      Some(LocatedIssue(CandidatePath(issuesDir, Open, filename), Open, filename))
    else if CandidatePath(issuesDir, Review, filename) in existing then
      Some(LocatedIssue(CandidatePath(issuesDir, Review, filename), Review, filename))
    else if CandidatePath(issuesDir, Stuck, filename) in existing then
      Some(LocatedIssue(CandidatePath(issuesDir, Stuck, filename), Stuck, filename))
    else None
  }

  datatype SearchEntry = SearchEntry(dir: string, status: IssueStatus)

  /** `locateIssueFile`: probe the three directories in order and return at
      the first that holds the file. `existing` is the set of paths that exist. */
  method LocateIssueFile(filename: string, issuesDir: string, existing: set<string>)
    returns (r: Option<LocatedIssue>)
    ensures r == Locate(filename, issuesDir, existing)
  {
    var directories := [
      SearchEntry(PathJoin(issuesDir, "open"), Open),
      SearchEntry(PathJoin(issuesDir, "review"), Review),
      SearchEntry(PathJoin(issuesDir, "stuck"), Stuck)
    ];
    for i := 0 to |directories|
      invariant forall k :: 0 <= k < i ==>
        CandidatePath(issuesDir, directories[k].status, filename) !in existing
    {
      var filePath := PathJoin(directories[i].dir, filename);
      assert filePath == CandidatePath(issuesDir, directories[i].status, filename);
      if filePath in existing {
        assert i >= 1 ==> directories[0].status == Open && CandidatePath(issuesDir, Open, filename) !in existing;
        assert i >= 2 ==> directories[1].status == Review && CandidatePath(issuesDir, Review, filename) !in existing;
        assert directories[i].status == [Open, Review, Stuck][i];
        return Some(LocatedIssue(filePath, directories[i].status, filename));
      }
    }
    assert directories[0].status == Open && directories[1].status == Review && directories[2].status == Stuck;
    return None;
  }

  /** A reference holding a path separator is taken as a path. */
  predicate IsPathReference(reference: string) {
    Contains(reference, "/") || Contains(reference, "\\")
  }

  /** `path.resolve` of a reference against the working directory `cwd`, without normalisation. */
  function AbsolutePath(reference: string, cwd: string): string {
    if StartsWith(reference, "/") then reference else PathJoin(cwd, reference)
  }

  /** The status read off an explicit path: review wins over stuck, open is the default. */
  function StatusFromPath(path: string): IssueStatus {
    if Contains(path, "/review/") then Review
    else if Contains(path, "/stuck/") then Stuck
    else Open
  }

  /** `path.basename`: what follows the last `/`. */
  function Basename(path: string): (b: string)
    ensures '/' !in b
    ensures |b| <= |path| && path[|path| - |b|..] == b
    ensures |b| < |path| ==> path[|path| - |b| - 1] == '/'
    decreases |path|
  {
    if path == [] || path[|path| - 1] == '/' then []
    else Basename(path[..|path| - 1]) + [path[|path| - 1]]
  }

  /** `resolveIssueReference`: a path is checked for existence and its status
      read off the path; a bare name is searched for in the status directories. */
  method ResolveIssueReference(reference: string, issuesDir: string, cwd: string, existing: set<string>)
    returns (r: Option<LocatedIssue>)
    ensures IsPathReference(reference) ==> (r.Some? <==> AbsolutePath(reference, cwd) in existing)
    ensures IsPathReference(reference) && r.Some? ==>
      var absolutePath := AbsolutePath(reference, cwd);
      r.value == LocatedIssue(absolutePath, StatusFromPath(absolutePath), Basename(absolutePath))
    ensures !IsPathReference(reference) ==> r == Locate(reference, issuesDir, existing)
  {
    if Contains(reference, "/") || Contains(reference, "\\") {
      var absolutePath := if StartsWith(reference, "/") then reference else PathJoin(cwd, reference);
      if absolutePath in existing {
        var status := Open;
        if Contains(absolutePath, "/review/") {
          status := Review;
        } else if Contains(absolutePath, "/stuck/") {
          status := Stuck;
        }
        return Some(LocatedIssue(absolutePath, status, Basename(absolutePath)));
      }
      return None;
    }
    r := LocateIssueFile(reference, issuesDir, existing);
  }

  /** The name after a final `/` is the basename. */
  lemma {:induction false} BasenameAfterSlash(dir: string, filename: string)
    requires '/' !in filename
    ensures Basename(dir + "/" + filename) == filename
    decreases |filename|
  {
    var path := dir + "/" + filename;
    if filename != [] {
      var init := filename[..|filename| - 1];
      assert path[..|path| - 1] == dir + "/" + init;
      assert path[|path| - 1] == filename[|filename| - 1];
      BasenameAfterSlash(dir, init);
      assert init + [filename[|filename| - 1]] == filename;
    }
  }

  /** A `/`-delimited pattern absent from `prefix` stays absent from
      `prefix + name + "/" + filename` when `name` cannot complete it and
      neither `name` nor `filename` holds a `/`. */
  lemma PatternAbsentFromPath(prefix: string, name: string, filename: string, pattern: string)
    requires |pattern| >= 2 && pattern[0] == '/' && pattern[|pattern| - 1] == '/'
    requires !Contains(prefix, pattern)
    requires |name| > 0 && name[0] !in pattern[1..]
    requires '/' !in name && '/' !in filename
    ensures !Contains(prefix + name + "/" + filename, pattern)
  {
    var s := prefix + name + "/" + filename;
    var n := |prefix|;
    forall j: nat ensures !OccursAt(s, pattern, j) {
      if j + |pattern| <= |s| {
        var w := s[j..j + |pattern|];
        if j + |pattern| <= n {
          assert w == prefix[j..j + |pattern|];
          assert !OccursAt(prefix, pattern, j);
        } else if j < n {
          var k := n - j;
          assert w[k] == s[n] == name[0];
          assert pattern[k] == pattern[1..][k - 1];
          assert w[k] != pattern[k];
        } else if j == n + |name| {
          var k := |pattern| - 1;
          assert w[k] == s[j + k] == filename[j + k - n - |name| - 1];
          assert w[k] != pattern[k];
        } else {
          assert w[0] == s[j];
          if j < n + |name| {
            assert s[j] == name[j - n];
          } else {
            assert s[j] == filename[j - n - |name| - 1];
          }
          assert w[0] != pattern[0];
        }
      }
    }
  }

  /** A directory pattern right after `prefix` is found. */
  lemma PatternInPath(prefix: string, name: string, filename: string)
    ensures Contains(prefix + "/" + name + "/" + filename, "/" + name + "/")
  {
    var s := prefix + "/" + name + "/" + filename;
    assert s[|prefix|..|prefix| + |name| + 2] == "/" + name + "/";
    assert OccursAt(s, "/" + name + "/", |prefix|);
  }

  lemma OpenPathStatus(issuesDir: string, filename: string)
    requires '/' !in filename
    requires !Contains(issuesDir + "/", "/review/") && !Contains(issuesDir + "/", "/stuck/")
    ensures StatusFromPath(issuesDir + "/" + "open" + "/" + filename) == Open
  {
    assert issuesDir + "/" + "open" + "/" + filename == (issuesDir + "/") + "open" + "/" + filename;
    assert "/review/"[1..] == "review/" && 'o' !in "review/";
    assert "/stuck/"[1..] == "stuck/" && 'o' !in "stuck/";
    PatternAbsentFromPath(issuesDir + "/", "open", filename, "/review/");
    PatternAbsentFromPath(issuesDir + "/", "open", filename, "/stuck/");
  }

  lemma ReviewPathStatus(issuesDir: string, filename: string)
    ensures StatusFromPath(issuesDir + "/" + "review" + "/" + filename) == Review
  {
    PatternInPath(issuesDir, "review", filename);
    assert "/" + "review" + "/" == "/review/";
  }

  lemma StuckPathStatus(issuesDir: string, filename: string)
    requires '/' !in filename
    requires !Contains(issuesDir + "/", "/review/")
    ensures StatusFromPath(issuesDir + "/" + "stuck" + "/" + filename) == Stuck
  {
    assert issuesDir + "/" + "stuck" + "/" + filename == (issuesDir + "/") + "stuck" + "/" + filename;
    assert "/review/"[1..] == "review/" && 's' !in "review/";
    PatternAbsentFromPath(issuesDir + "/", "stuck", filename, "/review/");
    PatternInPath(issuesDir, "stuck", filename);
    assert "/" + "stuck" + "/" == "/stuck/";
  }

  /** The two lookup modes agree: the path at which the search finds a file,
      passed back as a reference, is a path reference whose status read off
      the path is the directory it was found in and whose basename is the
      filename searched for. This needs a bare filename and an issues
      directory that does not itself hold `/review/` or `/stuck/`. */
  lemma SearchAgreesWithPathReference(issuesDir: string, status: IssueStatus, filename: string)
    requires '/' !in filename
    requires !Contains(issuesDir + "/", "/review/") && !Contains(issuesDir + "/", "/stuck/")
    ensures IsPathReference(CandidatePath(issuesDir, status, filename))
    ensures StatusFromPath(CandidatePath(issuesDir, status, filename)) == status
    ensures Basename(CandidatePath(issuesDir, status, filename)) == filename
  {
    var name := StatusName(status);
    var path := CandidatePath(issuesDir, status, filename);
    BasenameAfterSlash(issuesDir + "/" + name, filename);
    assert OccursAt(path, "/", |issuesDir|) by {
      assert path[|issuesDir|] == '/';
    }
    match status
    case Open => OpenPathStatus(issuesDir, filename);
    case Review => ReviewPathStatus(issuesDir, filename);
    case Stuck => StuckPathStatus(issuesDir, filename);
  }

  // ---------------------------------------------------------------------------
  // Abbreviation

  /** The display form of `m` under `maxLength`: unchanged when it fits;
      otherwise its first `maxLength` characters with trailing whitespace
      dropped, followed by ELLIPSIS. The full text is always kept. */
  function Abbreviate(m: AuthoredMessage, maxLength: nat): (a: AbbreviatedMessage)
    ensures a.index == m.index && a.author == m.author && a.fullContent == m.content
    ensures a.isAbbreviated <==> |m.content| > maxLength
    ensures !a.isAbbreviated ==> a.content == m.content
    ensures a.isAbbreviated ==>
      var kept := |a.content| - |ELLIPSIS|;
      && |ELLIPSIS| <= |a.content| <= maxLength + |ELLIPSIS|
      && a.content[kept..] == ELLIPSIS
      && a.content[..kept] == m.content[..kept]
      && (kept == 0 || !IsWhitespace(a.content[kept - 1]))
      && forall i :: kept <= i < maxLength ==> IsWhitespace(m.content[i])
    ensures |a.content| <= maxLength + |ELLIPSIS|
  {
    if |m.content| > maxLength then
      var prefix := m.content[..maxLength];
      TrimEndIsPrefix(prefix);
      TrimEndDropsWhitespace(prefix);
      var abbreviated := TrimEnd(prefix) + ELLIPSIS;
      assert abbreviated[..|TrimEnd(prefix)|] == TrimEnd(prefix);
      AbbreviatedMessage(m.index, m.author, abbreviated, true, m.content)
    else
      AbbreviatedMessage(m.index, m.author, m.content, false, m.content)
  }

  /** `abbreviateMessage`. */
  method AbbreviateMessage(message: AuthoredMessage, position: Position, maxLength: nat)
    returns (a: AbbreviatedMessage)
    ensures a == Abbreviate(message, maxLength)
  {
    var fullContent := message.content;
    var abbreviated := fullContent;
    var isAbbreviated := false;
    if |fullContent| > maxLength {
      abbreviated := TrimEnd(fullContent[..maxLength]) + ELLIPSIS;
      isAbbreviated := true;
    }
    a := AbbreviatedMessage(message.index, message.author, abbreviated, isAbbreviated, fullContent);
  }

  /** The limit for position `i` of `n` messages. */
  function LimitAt(i: nat, n: nat): nat {
    if i == 0 || i + 1 == n then FIRST_LAST_LIMIT else MIDDLE_LIMIT
  }

  /** `result` abbreviates `messages` one for one, each under the limit of its position. */
  predicate AbbreviatedByPosition(messages: seq<AuthoredMessage>, result: seq<AbbreviatedMessage>) {
    && |result| == |messages|
    && forall i :: 0 <= i < |messages| ==> result[i] == Abbreviate(messages[i], LimitAt(i, |messages|))
  }

  /** A message whose content is not marked abbreviated shows its full text. */
  predicate IsConsistent(m: AbbreviatedMessage) {
    !m.isAbbreviated ==> m.content == m.fullContent
  }

  /** `createAbbreviatedMessages`: the first and last message under 230
      characters, the ones between under 70, a lone message under 230. */
  method CreateAbbreviatedMessages(messages: seq<AuthoredMessage>) returns (result: seq<AbbreviatedMessage>)
    ensures AbbreviatedByPosition(messages, result)
    ensures forall i :: 0 <= i < |result| ==>
      && result[i].index == messages[i].index
      && result[i].fullContent == messages[i].content
      && |result[i].content| <= LimitAt(i, |messages|) + |ELLIPSIS|
      && IsConsistent(result[i])
  {
    if |messages| == 0 {
      return [];
    }
    if |messages| == 1 {
      var only := AbbreviateMessage(messages[0], First, FIRST_LAST_LIMIT);
      return [only];
    }
    result := [];
    var first := AbbreviateMessage(messages[0], First, FIRST_LAST_LIMIT);
    result := result + [first];
    var i := 1;
    while i < |messages| - 1
      invariant 1 <= i <= |messages| - 1
      invariant |result| == i
      invariant forall k :: 0 <= k < i ==> result[k] == Abbreviate(messages[k], LimitAt(k, |messages|))
    {
      var middle := AbbreviateMessage(messages[i], Middle, MIDDLE_LIMIT);
      result := result + [middle];
      i := i + 1;
    }
    var last := AbbreviateMessage(messages[|messages| - 1], Last, FIRST_LAST_LIMIT);
    result := result + [last];
  }

  /** `summarizeIssue`, given the already parsed messages of the located file. */
  method SummarizeIssue(locatedIssue: LocatedIssue, messages: seq<AuthoredMessage>) returns (summary: IssueSummary)
    ensures summary.issue == locatedIssue
    ensures AbbreviatedByPosition(messages, summary.abbreviatedMessages)
    ensures summary.messageCount == |messages| == |summary.abbreviatedMessages|
    ensures summary.filterToIndices.None? && summary.isSingleIndex.None?
  {
    var abbreviatedMessages := CreateAbbreviatedMessages(messages);
    summary := IssueSummary(locatedIssue, abbreviatedMessages, |messages|, None, None);
  }

  /** The limits by position: a lone message and the two ends use 230, the
      messages strictly between use 70. */
  lemma LimitsByPosition(n: nat, i: nat)
    requires i < n
    ensures n == 1 ==> LimitAt(i, n) == FIRST_LAST_LIMIT
    ensures n >= 2 && (i == 0 || i == n - 1) ==> LimitAt(i, n) == FIRST_LAST_LIMIT
    ensures 0 < i < n - 1 ==> LimitAt(i, n) == MIDDLE_LIMIT
  {
  }

  /** What a summary built by position promises of each of its messages. */
  lemma AbbreviatedByPositionBounds(messages: seq<AuthoredMessage>, result: seq<AbbreviatedMessage>)
    requires AbbreviatedByPosition(messages, result)
    ensures forall i :: 0 <= i < |result| ==>
      && result[i].index == messages[i].index
      && result[i].author == messages[i].author
      && result[i].fullContent == messages[i].content
      && |result[i].content| <= LimitAt(i, |messages|) + |ELLIPSIS|
      && (result[i].isAbbreviated <==> |messages[i].content| > LimitAt(i, |messages|))
      && IsConsistent(result[i])
  {
    forall i | 0 <= i < |result|
      ensures result[i] == Abbreviate(messages[i], LimitAt(i, |messages|))
    {
    }
  }

  // ---------------------------------------------------------------------------
  // Index specifications

  /** `start, start + 1, ..., end`. */
  function InclusiveRange(start: nat, end: nat): (r: seq<nat>)
    requires start <= end
    ensures |r| == end - start + 1
    ensures forall k :: 0 <= k < |r| ==> r[k] == start + k
  {
    seq(end - start + 1, k requires 0 <= k <= end - start => start + k)
  }

  /** `parts.map((s) => s.trim())`. */
  function TrimEach(parts: seq<string>): (r: seq<string>)
    ensures |r| == |parts| && forall k :: 0 <= k < |r| ==> r[k] == Trim(parts[k])
  {
    seq(|parts|, k requires 0 <= k < |parts| => Trim(parts[k]))
  }

  /** A selection is a non-empty run of consecutive indices. */
  predicate IsIndexRun(indices: seq<nat>) {
    |indices| >= 1 && forall k :: 0 <= k < |indices| ==> indices[k] == indices[0] + k
  }

  /** The comma-separated parts of a specification, each trimmed. */
  function IndexParts(indexSpec: string): (parts: seq<string>)
    ensures |parts| == |Split(indexSpec, ",")| >= 1
  {
    TrimEach(Split(indexSpec, ","))
  }

  /** A part that `parseInt` reads as a non-negative number. */
  predicate IsIndexPart(part: string) {
    ParseInt(part).Some? && ParseInt(part).value >= 0
  }

  /** One or two parts, every part a non-negative number, and the last no
      smaller than the first: the specifications `parseIndexSpec` accepts. */
  predicate AreIndexParts(parts: seq<string>) {
    && 1 <= |parts| <= 2
    && (forall k :: 0 <= k < |parts| ==> IsIndexPart(parts[k]))
    && ParseInt(parts[0]).value <= ParseInt(parts[|parts| - 1]).value
  }

  /** The selection the trimmed parts denote: one part selects its value,
      two parts the run between their values, and anything else nothing. */
  function PartsSelection(parts: seq<string>): (r: Option<IndexSelection>)
    requires |parts| >= 1
    ensures r.Some? ==> IsIndexRun(r.value.indices)
    ensures r.Some? ==> (r.value.isSingleIndex <==> |parts| == 1)
    ensures r.Some? && r.value.isSingleIndex ==> |r.value.indices| == 1
    ensures r.Some? <==> AreIndexParts(parts)
    ensures r.Some? ==>
      && r.value.indices[0] == ParseInt(parts[0]).value
      && r.value.indices[|r.value.indices| - 1] == ParseInt(parts[|parts| - 1]).value
  {
    if |parts| == 1 then
      var index := ParseInt(parts[0]);
      if index.None? || index.value < 0 then None
      else Some(IndexSelection([index.value], true))
    else if |parts| == 2 then
      var start, end := ParseInt(parts[0]), ParseInt(parts[1]);
      if start.None? || end.None? || start.value < 0 || end.value < start.value then None
      else Some(IndexSelection(InclusiveRange(start.value, end.value), false))
    else None
  }

  /** What `parseIndexSpec` returns for `indexSpec`: "N" selects N, "M,N"
      selects M..N when M <= N, and everything else is invalid. */
  function IndexSpec(indexSpec: string): (r: Option<IndexSelection>)
    ensures r.Some? ==> IsIndexRun(r.value.indices)
    ensures r.Some? ==> (r.value.isSingleIndex <==> |Split(indexSpec, ",")| == 1)
    ensures r.Some? && r.value.isSingleIndex ==> |r.value.indices| == 1
    ensures |Split(indexSpec, ",")| > 2 ==> r.None?
    ensures r.Some? <==> AreIndexParts(IndexParts(indexSpec))
    ensures r.Some? ==>
      && r.value.indices[0] == ParseInt(IndexParts(indexSpec)[0]).value
      && r.value.indices[|r.value.indices| - 1]
         == ParseInt(IndexParts(indexSpec)[|IndexParts(indexSpec)| - 1]).value
  {
    PartsSelection(IndexParts(indexSpec))
  }

  /** `parseIndexSpec`. */
  method ParseIndexSpec(indexSpec: string) returns (r: Option<IndexSelection>)
    ensures r == IndexSpec(indexSpec)
  {
    var parts := TrimEach(Split(indexSpec, ","));
    if |parts| == 1 {
      var index := ParseInt(parts[0]);
      if index.None? || index.value < 0 {
        return None;
      }
      return Some(IndexSelection([index.value], true));
    }
    if |parts| == 2 {
      var start := ParseInt(parts[0]);
      var end := ParseInt(parts[1]);
      if start.None? || end.None? || start.value < 0 || end.value < start.value {
        return None;
      }
      var indices := FillRange(start.value, end.value);
      return Some(IndexSelection(indices, false));
    }
    return None;
  }

  /** The range-filling loop of `parseIndexSpec`. */
  method FillRange(start: nat, end: nat) returns (indices: seq<nat>)
    requires start <= end
    ensures indices == InclusiveRange(start, end)
  {
    indices := [];
    var i: nat := start;
    while i <= end
      invariant start <= i <= end + 1
      invariant |indices| == i - start
      invariant forall k :: 0 <= k < |indices| ==> indices[k] == start + k
    {
      indices := indices + [i];
      i := i + 1;
    }
  }

  /** `"N"` for a non-negative N selects exactly N, as a single index. */
  lemma IndexSpecSingle(n: nat)
    ensures IndexSpec(NatToString(n)) == Some(IndexSelection([n], true))
  {
    var s := NatToString(n);
    DigitsAvoidComma(s);
    SplitWithoutChar(s, ',');
    DigitsAreTrimmed(s);
    ParseIntOfNat(n);
    assert TrimEach([s]) == [s];
  }

  /** `"M,N"` with M <= N selects M, M + 1, ..., N, as a range. */
  lemma IndexSpecRange(m: nat, n: nat)
    requires m <= n
    ensures IndexSpec(NatToString(m) + "," + NatToString(n)) == Some(IndexSelection(InclusiveRange(m, n), false))
  {
    var a, b := NatToString(m), NatToString(n);
    TwoPartsSplit(a, b);
    DigitsAreTrimmed(a);
    DigitsAreTrimmed(b);
    ParseIntOfNat(m);
    ParseIntOfNat(n);
    assert TrimEach([a, b]) == [a, b];
  }

  /** `"M,N"` with N < M is invalid. */
  lemma IndexSpecRejectsDescending(m: nat, n: nat)
    requires n < m
    ensures IndexSpec(NatToString(m) + "," + NatToString(n)) == None
  {
    var a, b := NatToString(m), NatToString(n);
    TwoPartsSplit(a, b);
    DigitsAreTrimmed(a);
    DigitsAreTrimmed(b);
    ParseIntOfNat(m);
    ParseIntOfNat(n);
    assert TrimEach([a, b]) == [a, b];
  }

  /** `"-N"` for a positive N is invalid (while `"-0"` reads as 0, as in JavaScript). */
  lemma IndexSpecRejectsNegative(n: nat)
    requires n > 0
    ensures IndexSpec("-" + NatToString(n)) == None
  {
    var s := "-" + NatToString(n);
    DigitsAvoidComma(NatToString(n));
    assert ',' !in s;
    SplitWithoutChar(s, ',');
    DigitsAreTrimmed(NatToString(n));
    assert IsTrimmed(s);
    TrimProperties(s);
    ParseIntOfNat(n);
    assert TrimEach([s]) == [s];
  }

  /** A single part that starts with neither whitespace, a sign nor a digit is
      invalid (`"invalid"`, `"abc"`). */
  lemma IndexSpecRejectsNonNumeric(s: string)
    requires ',' !in s
    requires |s| > 0 && !IsWhitespace(s[0]) && !IsDigit(s[0]) && s[0] != '-' && s[0] != '+'
    ensures IndexSpec(s) == None
  {
    SplitWithoutChar(s, ',');
    TrimProperties(s);
    TrimStartUnchanged(s);
    TrimEndIsPrefix(s);
    assert Trim(s) != [] by {
      assert !IsWhitespace(s[0]);
    }
    assert Trim(s)[0] == s[0];
    ParseIntNonNumeric(Trim(s));
    assert TrimEach([s]) == [Trim(s)];
  }

  /** Three or more comma-separated parts are invalid (`"1,2,3"`). */
  lemma IndexSpecRejectsThreeParts(a: string, b: string, c: string)
    requires ',' !in a && ',' !in b
    ensures IndexSpec(a + "," + b + "," + c) == None
  {
    SplitAtChar(b, ',', c);
    assert a + "," + b + "," + c == a + [','] + (b + [','] + c);
    SplitAtChar(a, ',', b + [','] + c);
  }

  lemma DigitsAvoidComma(s: string)
    requires AllDigits(s)
    ensures ',' !in s
  {
    assert forall i :: 0 <= i < |s| ==> s[i] != ',';
  }

  lemma DigitsAreTrimmed(s: string)
    requires AllDigits(s)
    ensures Trim(s) == s
  {
    if s != [] {
      assert !IsWhitespace(s[0]) && !IsWhitespace(s[|s| - 1]);
    }
    TrimProperties(s);
  }

  lemma TwoPartsSplit(a: string, b: string)
    requires AllDigits(a) && AllDigits(b)
    ensures Split(a + "," + b, ",") == [a, b]
  {
    DigitsAvoidComma(a);
    DigitsAvoidComma(b);
    assert a + "," + b == a + [','] + b;
    SplitAtChar(a, ',', b);
    SplitWithoutChar(b, ',');
  }

  /** `"3"` selects message 3 alone. */
  lemma IndexSpecExampleSingle()
    ensures IndexSpec("3") == Some(IndexSelection([3], true))
  {
    assert NatToString(3) == "3";
    IndexSpecSingle(3);
  }

  /** `"1,3"` selects messages 1, 2 and 3. */
  lemma IndexSpecExampleRange()
    ensures IndexSpec("1,3") == Some(IndexSelection([1, 2, 3], false))
  {
    assert NatToString(1) == "1" && NatToString(3) == "3";
    assert "1,3" == NatToString(1) + "," + NatToString(3);
    IndexSpecRange(1, 3);
    assert InclusiveRange(1, 3) == [1, 2, 3];
  }

  /** `parseInt` stops at the first non-digit, so `"3abc"` is read as 3. */
  lemma IndexSpecExampleTrailingLetters()
    ensures IndexSpec("3abc") == Some(IndexSelection([3], true))
  {
    var digits, tail := "3", "abc";
    assert digits + tail == "3abc";
    assert !IsDigit(tail[0]) && !IsWhitespace(tail[2]);
    assert ',' !in tail by {
      assert tail[0] != ',' && tail[1] != ',' && tail[2] != ',';
    }
    assert DigitsValue(digits) == 3;
    LaxSingle(digits, tail);
  }

  /** `parseInt` stops at the decimal point, so `"1.5"` is read as 1. */
  lemma IndexSpecExampleDecimal()
    ensures IndexSpec("1.5") == Some(IndexSelection([1], true))
  {
    var digits, tail := "1", ".5";
    assert digits + tail == "1.5";
    assert !IsDigit(tail[0]) && !IsWhitespace(tail[1]);
    assert ',' !in tail by {
      assert tail[0] != ',' && tail[1] != ',';
    }
    assert DigitsValue(digits) == 1;
    LaxSingle(digits, tail);
  }

  lemma LaxSingle(digits: string, tail: string)
    requires |digits| > 0 && AllDigits(digits)
    requires |tail| > 0 && !IsDigit(tail[0]) && ',' !in tail && !IsWhitespace(tail[|tail| - 1])
    ensures IndexSpec(digits + tail) == Some(IndexSelection([DigitsValue(digits)], true))
  {
    var s := digits + tail;
    DigitsAvoidComma(digits);
    assert ',' !in s;
    SplitWithoutChar(s, ',');
    assert !IsWhitespace(s[0]) && s[|s| - 1] == tail[|tail| - 1];
    TrimProperties(s);
    ParseIntLeadingDigits(digits, tail);
    assert TrimEach([s]) == [s];
  }

  /** `"M,N"` is rejected when either part is NaN or negative. */
  lemma IndexSpecRejectsBadRangePart(a: string, b: string)
    requires ',' !in a && ',' !in b
    requires !IsIndexPart(Trim(a)) || !IsIndexPart(Trim(b))
    ensures IndexSpec(a + "," + b) == None
  {
    assert a + "," + b == a + [','] + b;
    SplitAtChar(a, ',', b);
    SplitWithoutChar(b, ',');
    assert IndexParts(a + "," + b) == [Trim(a), Trim(b)];
  }

  /** `"-1,3"` has a negative start and is rejected. */
  lemma IndexSpecExampleNegativeStart()
    ensures IndexSpec("-1,3") == None
  {
    assert "-1" + "," + "3" == "-1,3";
    assert Trim("-1") == "-1" by { TrimProperties("-1"); }
    assert ParseInt("-1") == Some(-1) by {
      assert NatToString(1) == "1";
      assert "-1" == "-" + NatToString(1);
      ParseIntOfNat(1);
    }
    IndexSpecRejectsBadRangePart("-1", "3");
  }

  /** `"1,abc"` has a non-numeric end and is rejected. */
  lemma IndexSpecExampleNonNumericEnd()
    ensures IndexSpec("1,abc") == None
  {
    var a, b := "1", "abc";
    assert a + "," + b == "1,abc";
    assert ',' !in a && ',' !in b by {
      assert a[0] != ',' && b[0] != ',' && b[1] != ',' && b[2] != ',';
    }
    assert !IsWhitespace(b[0]) && !IsWhitespace(b[2]) && !IsDigit(b[0]);
    NonNumericPart(b);
    IndexSpecRejectsBadRangePart(a, b);
  }

  /** A trimmed part that starts with neither a digit nor a sign is NaN. */
  lemma NonNumericPart(part: string)
    requires |part| > 0 && IsTrimmed(part)
    requires !IsDigit(part[0]) && part[0] != '-' && part[0] != '+'
    ensures !IsIndexPart(Trim(part))
  {
    TrimProperties(part);
    ParseIntNonNumeric(part);
  }

  /** `"3,1"` is a descending range and is rejected. */
  lemma IndexSpecExampleDescending()
    ensures IndexSpec("3,1") == None
  {
    assert NatToString(1) == "1" && NatToString(3) == "3";
    assert "3,1" == NatToString(3) + "," + NatToString(1);
    IndexSpecRejectsDescending(3, 1);
  }

  /** `"-1"` is rejected. */
  lemma IndexSpecExampleNegative()
    ensures IndexSpec("-1") == None
  {
    assert NatToString(1) == "1";
    assert "-1" == "-" + NatToString(1);
    IndexSpecRejectsNegative(1);
  }

  /** `"1,2,3"` has three parts and is rejected. */
  lemma IndexSpecExampleThreeParts()
    ensures IndexSpec("1,2,3") == None
  {
    assert "1,2,3" == "1" + "," + "2" + "," + "3";
    IndexSpecRejectsThreeParts("1", "2", "3");
  }

  /** `"invalid"` is rejected. */
  lemma IndexSpecExampleNonNumeric()
    ensures IndexSpec("invalid") == None
  {
    assert !IsWhitespace('i') && !IsDigit('i');
    IndexSpecRejectsNonNumeric("invalid");
  }

  // ---------------------------------------------------------------------------
  // Expansion

  /** One message after expansion: a selected message shows its full text. */
  function ExpandMessage(m: AbbreviatedMessage, indices: seq<nat>): AbbreviatedMessage {
    if m.index in indices then m.(content := m.fullContent, isAbbreviated := false) else m
  }

  /** The summary with the messages of `selection` expanded and the
      selection recorded for display. */
  function ExpandSelection(summary: IssueSummary, selection: IndexSelection): (r: IssueSummary)
    ensures r.issue == summary.issue
    ensures r.messageCount == summary.messageCount
    ensures r.filterToIndices == Some(selection.indices)
    ensures r.isSingleIndex == Some(selection.isSingleIndex)
    ensures |r.abbreviatedMessages| == |summary.abbreviatedMessages|
    ensures forall i :: 0 <= i < |r.abbreviatedMessages| ==>
      var before, after := summary.abbreviatedMessages[i], r.abbreviatedMessages[i];
      && after.index == before.index
      && after.author == before.author
      && after.fullContent == before.fullContent
      && (before.index in selection.indices ==> after.content == before.fullContent && !after.isAbbreviated)
      && (before.index !in selection.indices ==> after == before)
  {
    var messages := summary.abbreviatedMessages;
    summary.(
      abbreviatedMessages := seq(|messages|, i requires 0 <= i < |messages| => ExpandMessage(messages[i], selection.indices)),
      filterToIndices := Some(selection.indices),
      isSingleIndex := Some(selection.isSingleIndex))
  }

  /** `expandMessages`: an invalid specification leaves the summary as it is;
      a valid one restores the full text of exactly the selected messages and
      records the selection for display. */
  function ExpandMessages(summary: IssueSummary, indexSpec: string): (r: IssueSummary)
    ensures IndexSpec(indexSpec).None? ==> r == summary
    ensures IndexSpec(indexSpec).Some? ==>
      var selection := IndexSpec(indexSpec).value;
      && r.issue == summary.issue
      && r.messageCount == summary.messageCount
      && r.filterToIndices == Some(selection.indices)
      && r.isSingleIndex == Some(selection.isSingleIndex)
      && |r.abbreviatedMessages| == |summary.abbreviatedMessages|
      && forall i :: 0 <= i < |r.abbreviatedMessages| ==>
        var before, after := summary.abbreviatedMessages[i], r.abbreviatedMessages[i];
        && after.index == before.index
        && after.author == before.author
        && after.fullContent == before.fullContent
        && (before.index in selection.indices ==> after.content == before.fullContent && !after.isAbbreviated)
        && (before.index !in selection.indices ==> after == before)
  {
    match IndexSpec(indexSpec)
    case None => summary
    case Some(selection) => ExpandSelection(summary, selection)
  }

  /** Expanding twice with the same specification is expanding once. */
  lemma ExpandIdempotent(summary: IssueSummary, indexSpec: string)
    ensures ExpandMessages(ExpandMessages(summary, indexSpec), indexSpec) == ExpandMessages(summary, indexSpec)
  {
    var once := ExpandMessages(summary, indexSpec);
    var twice := ExpandMessages(once, indexSpec);
    if IndexSpec(indexSpec).Some? {
      assert twice.abbreviatedMessages == once.abbreviatedMessages;
    }
  }

  /** Expansion keeps every consistent message consistent. */
  lemma ExpandKeepsConsistency(summary: IssueSummary, indexSpec: string)
    requires forall i :: 0 <= i < |summary.abbreviatedMessages| ==> IsConsistent(summary.abbreviatedMessages[i])
    ensures forall i :: 0 <= i < |ExpandMessages(summary, indexSpec).abbreviatedMessages| ==>
      IsConsistent(ExpandMessages(summary, indexSpec).abbreviatedMessages[i])
  {
  }

  /** Expanding `"N"` shows message N in full, leaves the others as they were,
      and records the single index N. */
  lemma ExpandSingleIndex(summary: IssueSummary, n: nat)
    ensures
      var r := ExpandMessages(summary, NatToString(n));
      && r.filterToIndices == Some([n])
      && r.isSingleIndex == Some(true)
      && |r.abbreviatedMessages| == |summary.abbreviatedMessages|
      && forall i :: 0 <= i < |r.abbreviatedMessages| ==>
        if summary.abbreviatedMessages[i].index == n
        then r.abbreviatedMessages[i].content == summary.abbreviatedMessages[i].fullContent
          && !r.abbreviatedMessages[i].isAbbreviated
        else r.abbreviatedMessages[i] == summary.abbreviatedMessages[i]
  {
    IndexSpecSingle(n);
  }

  // ---------------------------------------------------------------------------
  // Rendering

  /** The lines that are non-empty. */
  function NonEmptyLines(lines: seq<string>): (r: seq<string>)
    ensures forall k :: 0 <= k < |r| ==> |r[k]| > 0 && r[k] in lines
    ensures forall k :: 0 <= k < |lines| && |lines[k]| > 0 ==> lines[k] in r
    decreases |lines|
  {
    if lines == [] then []
    else
      var rest := NonEmptyLines(lines[1..]);
      assert forall k :: 1 <= k < |lines| ==> lines[k] == lines[1..][k - 1];
      if |lines[0]| > 0 then [lines[0]] + rest else rest
  }

  /** Filtering a concatenation filters each half: the kept lines keep their
      order and their repetitions. */
  lemma {:induction false} NonEmptyLinesAppend(a: seq<string>, b: seq<string>)
    ensures NonEmptyLines(a + b) == NonEmptyLines(a) + NonEmptyLines(b)
    decreases |a|
  {
    if a == [] {
      assert a + b == b;
    } else {
      assert (a + b)[0] == a[0];
      assert (a + b)[1..] == a[1..] + b;
      NonEmptyLinesAppend(a[1..], b);
    }
  }

  /** A single line is kept exactly when it is non-empty. */
  lemma NonEmptyLinesSingle(line: string)
    ensures NonEmptyLines([line]) == if |line| > 0 then [line] else []
  {
    assert [line][1..] == [];
  }

  /** Two non-empty trimmed lines condense to the first, a space and the second. */
  lemma CondenseTwoLines(a: string, b: string)
    requires '\n' !in a && '\n' !in b
    requires |a| > 0 && |b| > 0 && IsTrimmed(a) && IsTrimmed(b)
    ensures CondenseText(a + "\n" + b) == a + " " + b
  {
    assert a + "\n" + b == a + ['\n'] + b;
    SplitAtChar(a, '\n', b);
    SplitWithoutChar(b, '\n');
    assert Split(a + "\n" + b, "\n") == [a, b];
    TrimProperties(a);
    TrimProperties(b);
    assert TrimEach([a, b]) == [a, b];
    NonEmptyLinesSingle(a);
    NonEmptyLinesSingle(b);
    NonEmptyLinesAppend([a], [b]);
    assert [a] + [b] == [a, b];
    assert NonEmptyLines([a, b]) == [a, b];
    assert [a, b][1..] == [b];
    assert Join([a, b], " ") == a + " " + b;
  }

  /** `condenseText`: split into lines, trim each, drop the empty ones and
      join the rest with single spaces. */
  function CondenseText(text: string): (r: string)
    ensures '\n' !in r
    ensures IsTrimmed(r)
  {
    var lines := TrimEach(Split(text, "\n"));
    var kept := NonEmptyLines(lines);
    CondensedLinesShape(text);
    JoinAvoids(kept, " ", '\n');
    if kept != [] then JoinEnds(kept, " "); Join(kept, " ") else Join(kept, " ")
  }

  /** Each trimmed line of a text is trimmed and holds no line break. */
  lemma CondensedLinesShape(text: string)
    ensures forall k :: 0 <= k < |NonEmptyLines(TrimEach(Split(text, "\n")))| ==>
      var line := NonEmptyLines(TrimEach(Split(text, "\n")))[k];
      '\n' !in line && IsTrimmed(line) && |line| > 0
  {
    var pieces := Split(text, "\n");
    var lines := TrimEach(pieces);
    forall k | 0 <= k < |lines| ensures '\n' !in lines[k] && IsTrimmed(lines[k]) {
      PieceAvoidsChar(pieces[k], '\n');
      TrimProperties(pieces[k]);
    }
  }

  lemma PieceAvoidsChar(s: string, c: char)
    requires forall j: nat :: !OccursAt(s, [c], j)
    ensures c !in s
  {
    forall i | 0 <= i < |s| ensures s[i] != c {
      assert !OccursAt(s, [c], i);
      assert s[i..i + 1] == [s[i]];
    }
  }

  /** Condensing is idempotent. */
  lemma CondenseIdempotent(text: string)
    ensures CondenseText(CondenseText(text)) == CondenseText(text)
  {
    var c := CondenseText(text);
    SplitWithoutChar(c, '\n');
    assert Split(c, "\n") == [c];
    TrimProperties(c);
    assert TrimEach([c]) == [c];
    assert [c][1..] == [];
    if c == [] {
      assert NonEmptyLines([c]) == [];
    } else {
      assert NonEmptyLines([c]) == [c];
    }
  }

  /** The report's first line. */
  function Header(issue: LocatedIssue): string {
    StatusName(issue.status) + "/" + issue.filename
  }

  /** The messages whose index is among `indices`, in their order. */
  function FilterByIndex(messages: seq<AbbreviatedMessage>, indices: seq<nat>): (r: seq<AbbreviatedMessage>)
    ensures |r| <= |messages|
    decreases |messages|
  {
    if messages == [] then []
    else
      var rest := FilterByIndex(messages[1..], indices);
      if messages[0].index in indices then [messages[0]] + rest else rest
  }

  /** A message is shown exactly when it is in the summary and its index is selected. */
  lemma {:induction false} FilterMembership(messages: seq<AbbreviatedMessage>, indices: seq<nat>)
    ensures forall m :: m in FilterByIndex(messages, indices) <==> m in messages && m.index in indices
    decreases |messages|
  {
    if messages != [] {
      FilterMembership(messages[1..], indices);
      assert forall m :: m in messages <==> m == messages[0] || m in messages[1..];
    }
  }

  /** A filter that selects every index keeps all messages, in their order. */
  lemma {:induction false} FilterSelectingAll(messages: seq<AbbreviatedMessage>, indices: seq<nat>)
    requires forall k :: 0 <= k < |messages| ==> messages[k].index in indices
    ensures FilterByIndex(messages, indices) == messages
    decreases |messages|
  {
    if messages != [] {
      assert forall k :: 0 <= k < |messages| - 1 ==> messages[1..][k] == messages[k + 1];
      FilterSelectingAll(messages[1..], indices);
      assert [messages[0]] + messages[1..] == messages;
    }
  }

  /** The positions, counted from `base`, of the messages `FilterByIndex` keeps. */
  function FilterPositions(messages: seq<AbbreviatedMessage>, indices: seq<nat>, base: nat): (ps: seq<nat>)
    ensures |ps| <= |messages|
    decreases |messages|
  {
    if messages == [] then []
    else
      var rest := FilterPositions(messages[1..], indices, base + 1);
      if messages[0].index in indices then [base] + rest else rest
  }

  /** The kept positions lie inside the messages and strictly increase, and a
      position is kept exactly when its message's index is selected. */
  lemma {:induction false} FilterPositionsFacts(messages: seq<AbbreviatedMessage>, indices: seq<nat>, base: nat)
    ensures forall k :: 0 <= k < |FilterPositions(messages, indices, base)| ==>
      base <= FilterPositions(messages, indices, base)[k] < base + |messages|
    ensures forall k, l :: 0 <= k < l < |FilterPositions(messages, indices, base)| ==>
      FilterPositions(messages, indices, base)[k] < FilterPositions(messages, indices, base)[l]
    ensures forall j :: 0 <= j < |messages| ==>
      (messages[j].index in indices <==> base + j in FilterPositions(messages, indices, base))
    decreases |messages|
  {
    if messages != [] {
      var tail := messages[1..];
      FilterPositionsFacts(tail, indices, base + 1);
      var rest := FilterPositions(tail, indices, base + 1);
      var ps := FilterPositions(messages, indices, base);
      if messages[0].index in indices {
        assert ps == [base] + rest;
      } else {
        assert ps == rest;
      }
      forall j | 0 < j < |messages|
        ensures messages[j].index in indices <==> base + j in ps
      {
        assert tail[j - 1] == messages[j];
      }
    }
  }

  /** The filter keeps order: the k-th shown message is the message at the
      k-th kept position (see `FilterPositionsFacts` for the positions). */
  lemma {:induction false} FilterKeepsOrder(messages: seq<AbbreviatedMessage>, indices: seq<nat>, base: nat)
    ensures |FilterPositions(messages, indices, base)| == |FilterByIndex(messages, indices)|
    ensures forall k :: 0 <= k < |FilterPositions(messages, indices, base)| ==>
      && base <= FilterPositions(messages, indices, base)[k] < base + |messages|
      && messages[FilterPositions(messages, indices, base)[k] - base] == FilterByIndex(messages, indices)[k]
    decreases |messages|
  {
    if messages != [] {
      var tail := messages[1..];
      FilterKeepsOrder(tail, indices, base + 1);
      var rest, shown := FilterPositions(tail, indices, base + 1), FilterByIndex(tail, indices);
      var ps, all := FilterPositions(messages, indices, base), FilterByIndex(messages, indices);
      var offset := if messages[0].index in indices then 1 else 0;
      if offset == 1 {
        assert ps == [base] + rest;
        assert all == [messages[0]] + shown;
      } else {
        assert ps == rest;
        assert all == shown;
      }
      forall k | offset <= k < |ps|
        ensures base < ps[k] < base + |messages| && messages[ps[k] - base] == all[k]
      {
        assert ps[k] == rest[k - offset];
        assert all[k] == shown[k - offset];
        assert tail[rest[k - offset] - (base + 1)] == messages[ps[k] - base];
      }
    }
  }

  /** The messages the report shows: all, or those selected by an expansion. */
  function ShownMessages(summary: IssueSummary): seq<AbbreviatedMessage> {
    match summary.filterToIndices
    case None => summary.abbreviatedMessages
    case Some(indices) => FilterByIndex(summary.abbreviatedMessages, indices)
  }

  /** One message line; only the abbreviated text is condensed to one line. */
  function MessageLine(m: AbbreviatedMessage): string {
    var content := if m.isAbbreviated then CondenseText(m.content) else m.content;
    "[" + NatToString(m.index) + "] @" + AuthorName(m.author) + ": " + content
  }

  /** The hint is shown unless a non-empty specification selected a single index. */
  predicate ShowsHint(summary: IssueSummary, indexSpec: Option<string>) {
    indexSpec.None? || indexSpec.value == "" || summary.isSingleIndex != Some(true)
  }

  function MessageLines(messages: seq<AbbreviatedMessage>): (r: seq<string>)
    ensures |r| == |messages| && forall k :: 0 <= k < |r| ==> r[k] == MessageLine(messages[k])
  {
    seq(|messages|, k requires 0 <= k < |messages| => MessageLine(messages[k]))
  }

  /** The report, line by line: the header, one line per shown message in
      order, then a blank line and the hint when the hint is due. */
  function ReportLines(summary: IssueSummary, indexSpec: Option<string>): (lines: seq<string>)
    ensures |lines| == 1 + |ShownMessages(summary)| + (if ShowsHint(summary, indexSpec) then 2 else 0)
    ensures lines[0] == Header(summary.issue)
    ensures forall k :: 0 <= k < |ShownMessages(summary)| ==> lines[k + 1] == MessageLine(ShownMessages(summary)[k])
    ensures ShowsHint(summary, indexSpec) ==> lines[|lines| - 2] == "" && lines[|lines| - 1] == MORE_HINT
  {
    [Header(summary.issue)] + MessageLines(ShownMessages(summary))
      + (if ShowsHint(summary, indexSpec) then ["", MORE_HINT] else [])
  }

  /** `formatIssueSummary`: collect the lines, then join them with line breaks. */
  method FormatIssueSummary(summary: IssueSummary, indexSpec: Option<string>) returns (text: string)
    ensures text == Join(ReportLines(summary, indexSpec), "\n")
    ensures StartsWith(text, Header(summary.issue))
  {
    var lines: seq<string> := [];
    var directory := StatusName(summary.issue.status) + "/";
    var filename := summary.issue.filename;
    lines := lines + [directory + filename];
    var messagesToShow := ShownMessages(summary);
    for k := 0 to |messagesToShow|
      invariant lines == [Header(summary.issue)] + MessageLines(messagesToShow[..k])
    {
      var msg := messagesToShow[k];
      var content := if msg.isAbbreviated then CondenseText(msg.content) else msg.content;
      var line := "[" + NatToString(msg.index) + "] @" + AuthorName(msg.author) + ": " + content;
      assert line == MessageLine(msg);
      MessageLinesSnoc(messagesToShow, k);
      lines := lines + [line];
    }
    assert messagesToShow[..|messagesToShow|] == messagesToShow;
    var body := lines;
    if indexSpec.None? || indexSpec.value == "" || summary.isSingleIndex != Some(true) {
      lines := lines + [""];
      lines := lines + [MORE_HINT];
      assert lines == body + ["", MORE_HINT];
    }
    assert lines == ReportLines(summary, indexSpec);
    JoinEnds(lines, "\n");
    text := Join(lines, "\n");
  }

  lemma MessageLinesSnoc(messages: seq<AbbreviatedMessage>, k: nat)
    requires k < |messages|
    ensures MessageLines(messages[..k + 1]) == MessageLines(messages[..k]) + [MessageLine(messages[k])]
  {
    assert messages[..k + 1][..k] == messages[..k];
  }

  /** An abbreviated message renders as a single line. */
  lemma AbbreviatedLineIsOneLine(m: AbbreviatedMessage)
    requires m.isAbbreviated
    ensures '\n' !in MessageLine(m)
  {
    var digits := NatToString(m.index);
    assert forall i :: 0 <= i < |digits| ==> digits[i] != '\n';
    assert '\n' !in AuthorName(m.author);
  }

  /** After expanding `"N"`, the report for `--index N` drops the hint and
      shows only the messages numbered N, each in full. */
  lemma ReportAfterSingleExpansion(summary: IssueSummary, n: nat)
    ensures
      var spec := NatToString(n);
      var expanded := ExpandMessages(summary, spec);
      var shown := ShownMessages(expanded);
      && |ReportLines(expanded, Some(spec))| == 1 + |shown|
      && forall k :: 0 <= k < |shown| ==>
        shown[k].index == n && !shown[k].isAbbreviated && shown[k].content == shown[k].fullContent
  {
    var spec := NatToString(n);
    ExpandSingleIndex(summary, n);
    var expanded := ExpandMessages(summary, spec);
    assert expanded.filterToIndices == Some([n]) && expanded.isSingleIndex == Some(true);
    assert !ShowsHint(expanded, Some(spec)) by {
      assert spec != "";
    }
    var shown := ShownMessages(expanded);
    assert shown == FilterByIndex(expanded.abbreviatedMessages, [n]);
    FilterMembership(expanded.abbreviatedMessages, [n]);
    forall k | 0 <= k < |shown|
      ensures shown[k].index == n && !shown[k].isAbbreviated && shown[k].content == shown[k].fullContent
    {
      assert shown[k] in expanded.abbreviatedMessages;
      var i :| 0 <= i < |expanded.abbreviatedMessages| && expanded.abbreviatedMessages[i] == shown[k];
      assert summary.abbreviatedMessages[i].index == n;
    }
  }
}
