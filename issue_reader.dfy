/** The conversation parser of src/issue-reader.ts: an issue file is a list of
    sections separated by a line holding only `---`; a section that, once
    trimmed, starts with `@user:` or `@claude:` is a message, and every other
    section is dropped without consuming an index. */
module IssueReader {
  import opened Wrappers
  import opened JsString

  const SECTION_SEPARATOR: string := "\n---\n"
  const USER_MARKER: string := "@user:"
  const CLAUDE_MARKER: string := "@claude:"
  const READ_FAILURE_PREFIX: string := "Failed to read issue file at "

  /** One message of the conversation; `content` keeps its `@author:` prefix. */
  datatype IssueMessage = IssueMessage(index: nat, content: string)

  /** The parsed file: its messages in order, and the text they came from. */
  datatype ParsedIssue = ParsedIssue(messages: seq<IssueMessage>, rawContent: string)

  predicate HasAuthorMarker(t: string) {
    StartsWith(t, USER_MARKER) || StartsWith(t, CLAUDE_MARKER)
  }

  /** What every emitted message content looks like. */
  predicate IsMessageContent(c: string) {
    |c| > 0 && IsTrimmed(c) && HasAuthorMarker(c)
  }

  /** A raw section becomes a message exactly when its trimmed form is
      non-empty and carries an author marker. */
  predicate IsKeptSection(section: string) {
    Trim(section) != [] && HasAuthorMarker(Trim(section))
  }

  /** The messages the parser's loop has emitted after processing `sections`
      in order: each kept section is appended with the next free index. */
  function SectionMessages(sections: seq<string>): (ms: seq<IssueMessage>)
    ensures |ms| <= |sections|
    ensures forall i :: 0 <= i < |ms| ==> ms[i].index == i
    ensures forall i :: 0 <= i < |ms| ==> IsMessageContent(ms[i].content)
    decreases |sections|
  {
    if sections == [] then []
    else
      var prior := SectionMessages(sections[..|sections| - 1]);
      var trimmedSection := Trim(sections[|sections| - 1]);
      if trimmedSection == [] then prior
      else if HasAuthorMarker(trimmedSection) then prior + [IssueMessage(|prior|, trimmedSection)]
      else prior
  }

  /** The positions of the kept sections, in increasing order. */
  function KeptPositions(sections: seq<string>): seq<nat>
    decreases |sections|
  {
    if sections == [] then []
    else
      var prior := KeptPositions(sections[..|sections| - 1]);
      if IsKeptSection(sections[|sections| - 1]) then prior + [|sections| - 1] else prior
  }

  /** The kept positions lie inside the sections and strictly increase, and a
      position is kept exactly when its section is. */
  lemma {:induction false} KeptPositionsFacts(sections: seq<string>)
    ensures forall k :: 0 <= k < |KeptPositions(sections)| ==> KeptPositions(sections)[k] < |sections|
    ensures forall k, l :: 0 <= k < l < |KeptPositions(sections)| ==>
      KeptPositions(sections)[k] < KeptPositions(sections)[l]
    ensures forall j :: 0 <= j < |sections| ==>
      (IsKeptSection(sections[j]) <==> j in KeptPositions(sections))
    decreases |sections|
  {
    if sections != [] {
      var n := |sections|;
      var init := sections[..n - 1];
      KeptPositionsFacts(init);
      var prior, ps := KeptPositions(init), KeptPositions(sections);
      if IsKeptSection(sections[n - 1]) {
        assert ps == prior + [n - 1];
      } else {
        assert ps == prior;
      }
      forall j | 0 <= j < n - 1
        ensures IsKeptSection(sections[j]) <==> j in ps
      {
        assert init[j] == sections[j];
        assert j in ps <==> j in prior;
      }
    }
  }

  /** The messages are exactly the kept sections, trimmed, in their original
      order: the k-th message comes from the k-th kept position (see
      `KeptPositionsFacts` for the positions themselves). */
  lemma {:induction false} MessagesAreKeptSections(sections: seq<string>)
    ensures |SectionMessages(sections)| == |KeptPositions(sections)|
    ensures forall k :: 0 <= k < |KeptPositions(sections)| ==>
      KeptPositions(sections)[k] < |sections| &&
      SectionMessages(sections)[k].content == Trim(sections[KeptPositions(sections)[k]])
    decreases |sections|
  {
    KeptPositionsFacts(sections);
    if sections != [] {
      var n := |sections|;
      var init := sections[..n - 1];
      MessagesAreKeptSections(init);
      KeptPositionsFacts(init);
      var prior, ms := KeptPositions(init), SectionMessages(init);
      var ps, all := KeptPositions(sections), SectionMessages(sections);
      var last := sections[n - 1];
      if IsKeptSection(last) {
        assert ps == prior + [n - 1];
        assert all == ms + [IssueMessage(|ms|, Trim(last))];
      } else {
        assert ps == prior;
        assert all == ms;
      }
      forall k | 0 <= k < |prior|
        ensures all[k].content == Trim(sections[ps[k]])
      {
        assert init[prior[k]] == sections[prior[k]];
      }
    }
  }

  /** The parse of a whole file. */
  function ParsedContent(content: string): ParsedIssue {
    ParsedIssue(SectionMessages(Split(content, SECTION_SEPARATOR)), content)
  }

  /** `parseIssueContent`: split on the separator, then one pass over the
      sections that trims each one, skips the empty and the unmarked ones and
      numbers the rest with a running counter. */
  method ParseIssueContent(content: string) returns (issue: ParsedIssue)
    ensures issue == ParsedContent(content)
    ensures issue.rawContent == content
    ensures forall i :: 0 <= i < |issue.messages| ==> issue.messages[i].index == i
  {
    var messages: seq<IssueMessage> := [];
    var sections := Split(content, SECTION_SEPARATOR);
    var messageIndex: nat := 0;
    for k := 0 to |sections|
      invariant messages == SectionMessages(sections[..k])
      invariant messageIndex == |messages|
    {
      assert sections[..k + 1][..k] == sections[..k];
      var trimmedSection := Trim(sections[k]);
      if trimmedSection == [] {
        continue;
      }
      if HasAuthorMarker(trimmedSection) {
        messages := messages + [IssueMessage(messageIndex, trimmedSection)];
        messageIndex := messageIndex + 1;
      }
    }
    assert sections[..|sections|] == sections;
    issue := ParsedIssue(messages, content);
  }

  /** `readIssue`, with the outcome of reading the file passed in: a failed
      read becomes an error naming the path, a successful one is parsed. */
  method ReadIssue(filePath: string, fileText: Result<string, string>) returns (r: Result<ParsedIssue, string>)
    ensures fileText.Failure? ==> r == Failure(READ_FAILURE_PREFIX + filePath + ": " + fileText.error)
    ensures fileText.Success? ==> r == Success(ParsedContent(fileText.value))
  {
    match fileText
    case Failure(error) =>
      r := Failure(READ_FAILURE_PREFIX + filePath + ": " + error);
    case Success(rawContent) =>
      var parsed := ParseIssueContent(rawContent);
      r := Success(parsed);
  }

  /** `getLatestMessage`: the last message, or `None` for a message-less issue. */
  function GetLatestMessage(issue: ParsedIssue): (r: Option<IssueMessage>)
    ensures r.None? <==> |issue.messages| == 0
    ensures r.Some? ==> r.value in issue.messages
    ensures r.Some? ==> r.value == issue.messages[|issue.messages| - 1]
  {
    if |issue.messages| == 0 then None else Some(issue.messages[|issue.messages| - 1])
  }

  /** On a parsed file the latest message carries the highest index, count - 1,
      and is the last kept section, trimmed. */
  lemma LatestMessageOfParse(content: string)
    ensures GetLatestMessage(ParsedContent(content)).Some? ==>
      && GetLatestMessage(ParsedContent(content)).value.index == |ParsedContent(content).messages| - 1
      && |KeptPositions(Split(content, SECTION_SEPARATOR))| > 0
      && LastKept(Split(content, SECTION_SEPARATOR)) < |Split(content, SECTION_SEPARATOR)|
      && GetLatestMessage(ParsedContent(content)).value.content
         == Trim(Split(content, SECTION_SEPARATOR)[LastKept(Split(content, SECTION_SEPARATOR))])
  {
    var sections := Split(content, SECTION_SEPARATOR);
    var ms := SectionMessages(sections);
    MessagesAreKeptSections(sections);
    if |ms| > 0 {
      assert GetLatestMessage(ParsedContent(content)).value == ms[|ms| - 1];
    }
  }

  /** The position of the last kept section (0 when there is none). */
  function LastKept(sections: seq<string>): nat {
    var ps := KeptPositions(sections);
    if |ps| == 0 then 0 else ps[|ps| - 1]
  }

  /** Empty text has no messages and keeps its (empty) raw content. */
  lemma ParseEmpty()
    ensures ParsedContent("") == ParsedIssue([], "")
  {
    assert forall j: nat :: !OccursAt("", SECTION_SEPARATOR, j);
    SplitWithoutSeparator("", SECTION_SEPARATOR);
    assert Trim("") == "";
    assert SectionMessages([""]) == SectionMessages([]) == [];
  }

  /** Text without a separator whose trimmed form starts with `@user:` is one message, index 0. */
  lemma ParseSingleMessage(content: string)
    requires !Contains(content, SECTION_SEPARATOR)
    requires StartsWith(Trim(content), USER_MARKER)
    ensures ParsedContent(content).messages == [IssueMessage(0, Trim(content))]
  {
    SplitWithoutSeparator(content, SECTION_SEPARATOR);
    assert [content][..0] == [];
  }

  /** A section without a hyphen cannot hold, or run into, a separator. */
  lemma SplitSection(a: string, rest: string)
    requires '-' !in a
    ensures Split(a + SECTION_SEPARATOR + rest, SECTION_SEPARATOR) == [a] + Split(rest, SECTION_SEPARATOR)
  {
    var s := a + SECTION_SEPARATOR + rest;
    forall j: nat | j < |a| ensures !OccursAt(s, SECTION_SEPARATOR, j) {
      if j + 1 < |a| {
        assert s[j + 1] == a[j + 1];
      } else {
        assert s[j + 1] == '\n';
      }
      if j + |SECTION_SEPARATOR| <= |s| {
        assert s[j..j + |SECTION_SEPARATOR|][1] == s[j + 1];
      }
    }
    SplitFirstPiece(a, SECTION_SEPARATOR, rest);
  }

  lemma LastSection(c: string)
    requires '-' !in c
    ensures Split(c, SECTION_SEPARATOR) == [c]
  {
    forall j: nat ensures !OccursAt(c, SECTION_SEPARATOR, j) {
      if j + |SECTION_SEPARATOR| <= |c| {
        assert c[j..j + |SECTION_SEPARATOR|][1] == c[j + 1];
      }
    }
    SplitWithoutSeparator(c, SECTION_SEPARATOR);
  }

  /** A malformed section between two messages is dropped and consumes no
      index: valid, invalid, valid gives exactly two messages, numbered 0 and 1. */
  lemma ParseSkipsMalformed(a: string, b: string, c: string)
    requires '-' !in a && '-' !in b && '-' !in c
    requires IsKeptSection(a) && !IsKeptSection(b) && IsKeptSection(c)
    ensures ParsedContent(a + SECTION_SEPARATOR + b + SECTION_SEPARATOR + c).messages
         == [IssueMessage(0, Trim(a)), IssueMessage(1, Trim(c))]
  {
    SplitSection(b, c);
    LastSection(c);
    assert a + SECTION_SEPARATOR + b + SECTION_SEPARATOR + c == a + SECTION_SEPARATOR + (b + SECTION_SEPARATOR + c);
    SplitSection(a, b + SECTION_SEPARATOR + c);
    var sections := [a, b, c];
    assert Split(a + SECTION_SEPARATOR + b + SECTION_SEPARATOR + c, SECTION_SEPARATOR) == sections;
    assert [a][..0] == [];
    assert SectionMessages([a]) == [IssueMessage(0, Trim(a))];
    assert [a, b][..1] == [a];
    assert SectionMessages([a, b]) == [IssueMessage(0, Trim(a))];
    assert sections[..2] == [a, b];
    assert SectionMessages(sections) == [IssueMessage(0, Trim(a)), IssueMessage(1, Trim(c))];
  }
}
