/**
 * The record of completed downloads: a text file with one search query per
 * line. It is read once per run into a set, consulted before each download,
 * and appended to after each successful download. The file is modelled as
 * its text content; a missing file reads like an empty one.
 */
module DownloadLog {
  import opened Text

  /** The pieces of text joined back together. */
  function Concat(lines: seq<string>): string
    decreases |lines|
  {
    if |lines| == 0 then "" else lines[0] + Concat(lines[1..])
  }

  /**
   * Python's iteration over the text of a file: every line keeps its
   * terminating newline, and a final unterminated piece is a line of its own.
   */
  function Lines(content: string): seq<string>
    decreases |content|
  {
    if |content| == 0 then []
    else
      var head := TakeUntil(content, '\n');
      if |head| == |content| then [content]
      else [head + "\n"] + Lines(content[|head| + 1..])
  }

  /**
   * The text a file opened for reading in text mode delivers (universal
   * newlines): every "\r\n" and every other '\r' becomes one '\n'.
   */
  function Translate(raw: string): (r: string)
    ensures '\r' !in r
    ensures '\r' !in raw ==> r == raw
    decreases |raw|
  {
    if |raw| == 0 then ""
    else if raw[0] == '\r' then
      if |raw| > 1 && raw[1] == '\n' then "\n" + Translate(raw[2..]) else "\n" + Translate(raw[1..])
    else
      assert raw == [raw[0]] + raw[1..];
      [raw[0]] + Translate(raw[1..])
  }

  /** Neither kind of line break occurs in `s`. */
  predicate NoLineBreak(s: string) {
    '\r' !in s && '\n' !in s
  }

  /** The lines `for line in f` yields for a file holding `content`. */
  function ReadLines(content: string): seq<string> {
    Lines(Translate(content))
  }

  /**
   * Translation works piece by piece, as long as the first piece does not
   * end in a '\r' that the second piece's '\n' would pair with.
   */
  lemma {:induction false} TranslateConcat(a: string, b: string)
    requires |a| == 0 || a[|a| - 1] != '\r'
    ensures Translate(a + b) == Translate(a) + Translate(b)
    decreases |a|
  {
    if |a| == 0 {
      assert a + b == b;
    } else if a[0] == '\r' && |a| > 1 && a[1] == '\n' {
      assert (a + b)[2..] == a[2..] + b;
      TranslateConcat(a[2..], b);
      ConcatAssocSeq("\n", Translate(a[2..]), Translate(b));
    } else {
      assert |a| > 1 || a[0] != '\r';
      assert (a + b)[1..] == a[1..] + b;
      TranslateConcat(a[1..], b);
      var first := if a[0] == '\r' then "\n" else [a[0]];
      ConcatAssocSeq(first, Translate(a[1..]), Translate(b));
    }
  }

  /**
   * A '\r' ends a line: it becomes one '\n', together with a '\n' right after
   * it. With the identity on '\r'-free text this fixes the translation of
   * every input.
   */
  lemma TranslateLineEnd(a: string, b: string)
    requires |a| == 0 || a[|a| - 1] != '\r'
    ensures Translate(a + "\r" + b)
            == Translate(a) + "\n" + Translate(if |b| > 0 && b[0] == '\n' then b[1..] else b)
  {
    var x := ['\r'] + b;
    var rest := if |b| > 0 && b[0] == '\n' then b[1..] else b;
    assert a + "\r" + b == a + x;
    TranslateConcat(a, x);
    TranslateAfterCarriageReturn(b);
    ConcatAssocSeq(Translate(a), "\n", Translate(rest));
  }

  lemma TranslateAfterCarriageReturn(b: string)
    ensures Translate(['\r'] + b) == "\n" + Translate(if |b| > 0 && b[0] == '\n' then b[1..] else b)
  {
    if |b| > 0 && b[0] == '\n' {
      CarriageReturnNewline(b);
    } else if |b| > 0 {
      LoneCarriageReturn(b);
    } else {
      assert ['\r'] + b == ['\r'] && ['\r'][1..] == "";
    }
  }

  lemma CarriageReturnNewline(b: string)
    requires |b| > 0 && b[0] == '\n'
    ensures Translate(['\r'] + b) == "\n" + Translate(b[1..])
  {
    assert (['\r'] + b)[2..] == b[1..];
  }

  lemma ConcatAssocSeq(x: string, y: string, z: string)
    ensures x + (y + z) == (x + y) + z
  {
  }

  /** Translation keeps the last character when it is not a '\r'. */
  lemma {:induction false} TranslateLast(s: string)
    requires |s| > 0 && s[|s| - 1] != '\r'
    ensures |Translate(s)| > 0 && Translate(s)[|Translate(s)| - 1] == s[|s| - 1]
    decreases |s|
  {
    if s[0] == '\r' && |s| > 1 && s[1] == '\n' {
      if |s| > 2 {
        TranslateLast(s[2..]);
        LastOfConcat("\n", Translate(s[2..]));
      } else {
        assert Translate(s[2..]) == "";
      }
    } else if |s| > 1 {
      TranslateLast(s[1..]);
      var first := if s[0] == '\r' then "\n" else [s[0]];
      assert Translate(s) == first + Translate(s[1..]);
      LastOfConcat(first, Translate(s[1..]));
    }
  }

  lemma LastOfConcat(x: string, y: string)
    requires |y| > 0
    ensures |x + y| > 0 && (x + y)[|x + y| - 1] == y[|y| - 1]
  {
  }

  /** A line as file iteration yields it: non-empty, with a newline at most at its end. */
  predicate IsLine(line: string) {
    |line| > 0 && '\n' !in line[..|line| - 1]
  }

  /** A line ending in a newline. */
  predicate Terminates(line: string) {
    |line| > 0 && line[|line| - 1] == '\n'
  }

  /** Splitting into lines loses nothing: the lines join back into the content. */
  lemma {:induction false} LinesJoinBack(content: string)
    ensures Concat(Lines(content)) == content
    decreases |content|
  {
    if |content| > 0 {
      var head := TakeUntil(content, '\n');
      if |head| == |content| {
        assert Concat([content][1..]) == "";
      } else {
        var tail := content[|head| + 1..];
        LinesJoinBack(tail);
        LinesStep(content, head, tail);
        ConcatCons(head + "\n", Lines(tail));
        SplitAt(content, |head|);
      }
    }
  }

  lemma ConcatCons(line: string, lines: seq<string>)
    ensures Concat([line] + lines) == line + Concat(lines)
  {
    assert ([line] + lines)[1..] == lines;
  }

  /** A string is its part before position `i`, the character there, and the rest. */
  lemma SplitAt(s: string, i: nat)
    requires i < |s|
    ensures s == s[..i] + [s[i]] + s[i + 1..]
  {
  }

  /** Each line is a proper line, and all but the last end in a newline. */
  lemma {:induction false} LinesShape(content: string)
    ensures forall k :: 0 <= k < |Lines(content)| ==> IsLine(Lines(content)[k])
    ensures forall k :: 0 <= k < |Lines(content)| - 1 ==> Terminates(Lines(content)[k])
    decreases |content|
  {
    if |content| > 0 {
      var head := TakeUntil(content, '\n');
      if |head| == |content| {
        assert content[..|content| - 1] == head[..|head| - 1];
      } else {
        var line := head + "\n";
        var tail := content[|head| + 1..];
        LinesShape(tail);
        LinesStep(content, head, tail);
        assert line[..|line| - 1] == head;
        ConsShape(line, Lines(tail));
      }
    }
  }

  lemma ConsShape(line: string, rest: seq<string>)
    requires IsLine(line) && Terminates(line)
    requires forall k :: 0 <= k < |rest| ==> IsLine(rest[k])
    requires forall k :: 0 <= k < |rest| - 1 ==> Terminates(rest[k])
    ensures forall k :: 0 <= k < |[line] + rest| ==> IsLine(([line] + rest)[k])
    ensures forall k :: 0 <= k < |[line] + rest| - 1 ==> Terminates(([line] + rest)[k])
  {
    var r := [line] + rest;
    assert forall k :: 1 <= k < |r| ==> r[k] == rest[k - 1];
  }

  /** The stripped, non-empty entries of a sequence of lines. */
  function Stripped(lines: seq<string>): set<string> {
    set l | l in lines && Strip(l) != "" :: Strip(l)
  }

  lemma StrippedAppend(a: seq<string>, b: seq<string>)
    ensures Stripped(a + b) == Stripped(a) + Stripped(b)
  {
    forall x | x in Stripped(a + b) ensures x in Stripped(a) + Stripped(b) {
      var l :| l in a + b && Strip(l) != "" && Strip(l) == x;
    }
  }

  /**
   * The set `load_downloaded_songs` builds: every line of the file with its
   * surrounding whitespace removed, leaving out lines that become empty.
   */
  function Load(content: string): set<string> {
    Stripped(ReadLines(content))
  }

  /**
   * Every entry of the loaded set is non-empty, has no surrounding whitespace
   * and no line break, and it is a stripped line of the log.
   */
  lemma LoadedEntriesAreStripped(content: string, x: string)
    requires x in Load(content)
    ensures |x| > 0 && Unpadded(x, IsSpace)
    ensures NoLineBreak(x)
    ensures exists k :: 0 <= k < |ReadLines(content)| && Strip(ReadLines(content)[k]) == x
  {
    var text := Translate(content);
    var l :| l in Lines(text) && Strip(l) != "" && Strip(l) == x;
    var k :| 0 <= k < |Lines(text)| && Lines(text)[k] == l;
    assert IsLine(l) by {
      LinesShape(text);
    }
    assert '\r' !in l by {
      LinesAvoid(text, '\r');
    }
    StripLineNoNewline(l);
    StripAvoids(l, '\r');
  }

  /** A character absent from the text is absent from each of its lines. */
  lemma {:induction false} LinesAvoid(text: string, ch: char)
    requires ch !in text
    ensures forall k :: 0 <= k < |Lines(text)| ==> ch !in Lines(text)[k]
    decreases |text|
  {
    if |text| > 0 {
      var head := TakeUntil(text, '\n');
      if |head| < |text| {
        var tail := text[|head| + 1..];
        LinesAvoid(tail, ch);
        LinesStep(text, head, tail);
        assert text[|head|] == '\n';
        assert ch !in head + "\n";
        forall k | 1 <= k < |Lines(text)| ensures Lines(text)[k] == Lines(tail)[k - 1] {
        }
      }
    }
  }

  /** Stripping a line removes its newline, the only one it may hold. */
  lemma StripLineNoNewline(line: string)
    requires IsLine(line)
    ensures '\n' !in Strip(line)
  {
    var body := line[..|line| - 1];
    if Terminates(line) {
      assert line == body + ['\n'];
      TrimSnoc(body, IsSpace, '\n');
      StripAvoids(body, '\n');
    } else {
      assert line == body + [line[|line| - 1]];
      StripAvoids(line, '\n');
    }
  }

  /** Stripping never adds a character. */
  lemma StripAvoids(line: string, ch: char)
    requires ch !in line
    ensures ch !in Strip(line)
  {
    var bad := c => c == ch;
    assert NoneOf(line, bad);
    TrimKeepsNoneOf(line, IsSpace, bad);
  }

  /** Empty, or ending in a newline: the shape every write of this program leaves. */
  predicate Terminated(content: string) {
    |content| == 0 || content[|content| - 1] == '\n'
  }

  /** `log_downloaded_song(query)`: append the query and a newline. */
  function AppendEntry(content: string, query: string): (r: string)
    ensures Terminated(r)
  {
    content + query + "\n"
  }

  lemma {:induction false} TakeUntilExtend(c: string, d: string)
    requires |TakeUntil(c, '\n')| < |c|
    ensures TakeUntil(c + d, '\n') == TakeUntil(c, '\n')
    decreases |c|
  {
    if c[0] != '\n' {
      assert (c + d)[1..] == c[1..] + d;
      TakeUntilExtend(c[1..], d);
    }
  }

  lemma LinesOfEntry(query: string)
    requires '\n' !in query
    ensures Lines(query + "\n") == [query + "\n"]
  {
    var full := query + "\n";
    assert full == query + ['\n'] + "";
    TakeUntilBefore(query, '\n', "");
    assert full[|query| + 1..] == "";
  }

  /** One step of the line iteration: the first line, then the lines after it. */
  lemma LinesStep(c: string, head: string, tail: string)
    requires head == TakeUntil(c, '\n') && |head| < |c| && tail == c[|head| + 1..]
    ensures Lines(c) == [head + "\n"] + Lines(tail)
  {
  }

  /** A terminated log with something in it has a first line that ends inside it. */
  lemma TerminatedHead(content: string)
    requires Terminated(content) && |content| > 0
    ensures var head := TakeUntil(content, '\n');
            |head| < |content| && Terminated(content[|head| + 1..])
  {
    assert '\n' in content by { assert content[|content| - 1] == '\n'; }
  }

  lemma SliceOfConcat(a: string, b: string, i: nat)
    requires i <= |a|
    ensures (a + b)[i..] == a[i..] + b
  {
  }

  /** After a terminated prefix, the lines of the rest are read independently. */
  lemma {:induction false} LinesConcat(content: string, more: string)
    requires Terminated(content)
    ensures Lines(content + more) == Lines(content) + Lines(more)
    decreases |content|
  {
    if |content| == 0 {
      assert content + more == more;
    } else {
      var head := TakeUntil(content, '\n');
      var rest := content[|head| + 1..];
      assert |head| < |content| && Terminated(rest) by {
        TerminatedHead(content);
      }
      assert TakeUntil(content + more, '\n') == head by {
        TakeUntilExtend(content, more);
      }
      assert (content + more)[|head| + 1..] == rest + more by {
        SliceOfConcat(content, more, |head| + 1);
      }
      assert Lines(rest + more) == Lines(rest) + Lines(more) by {
        LinesConcat(rest, more);
      }
      LinesConcatStep(content, more, head, rest);
    }
  }

  lemma LinesConcatStep(content: string, more: string, head: string, rest: string)
    requires head == TakeUntil(content, '\n') && |head| < |content| && rest == content[|head| + 1..]
    requires TakeUntil(content + more, '\n') == head && (content + more)[|head| + 1..] == rest + more
    requires Lines(rest + more) == Lines(rest) + Lines(more)
    ensures Lines(content + more) == Lines(content) + Lines(more)
  {
    var line := head + "\n";
    assert Lines(content + more) == [line] + Lines(rest + more) by {
      LinesStep(content + more, head, rest + more);
    }
    assert Lines(content) == [line] + Lines(rest) by {
      LinesStep(content, head, rest);
    }
    ConsConcat(line, Lines(rest), Lines(more));
  }

  lemma ConsConcat(x: string, a: seq<string>, b: seq<string>)
    ensures [x] + (a + b) == ([x] + a) + b
  {
  }

  /** After a newline-terminated file content, the rest is read independently. */
  lemma ReadLinesConcat(content: string, more: string)
    requires Terminated(content)
    ensures ReadLines(content + more) == ReadLines(content) + ReadLines(more)
  {
    TranslateConcat(content, more);
    if |content| > 0 {
      TranslateLast(content);
    }
    LinesConcat(Translate(content), Translate(more));
  }

  /** A query without line breaks is read back as the one line that was written. */
  lemma EntryLines(query: string)
    requires NoLineBreak(query)
    ensures ReadLines(query + "\n") == [query + "\n"]
  {
    assert '\r' !in query + "\n";
    LinesOfEntry(query);
  }

  /**
   * Appending an entry to a terminated log adds the lines of the entry on its
   * own: exactly one line, the entry with its newline, when the query holds no
   * line break.
   */
  lemma LinesAppend(content: string, query: string)
    requires Terminated(content)
    ensures ReadLines(AppendEntry(content, query)) == ReadLines(content) + ReadLines(query + "\n")
    ensures NoLineBreak(query) ==>
              ReadLines(AppendEntry(content, query)) == ReadLines(content) + [query + "\n"]
  {
    assert AppendEntry(content, query) == content + (query + "\n");
    ReadLinesConcat(content, query + "\n");
    if NoLineBreak(query) {
      EntryLines(query);
    }
  }

  /**
   * A query with a carriage return inside is read back as two lines: the
   * text before it and, unless empty, the text after it.
   */
  lemma SplitEntryLines(a: string, b: string)
    requires NoLineBreak(a) && NoLineBreak(b)
    ensures ReadLines(a + "\r" + b + "\n") == [a + "\n"] + (if |b| > 0 then [b + "\n"] else [])
  {
    var rest := "\r" + b + "\n";
    assert a + "\r" + b + "\n" == a + rest;
    assert |a| == 0 || a[|a| - 1] in a;
    TranslateConcat(a, rest);
    TranslateCarriageReturn(b);
    if |b| > 0 {
      LinesAfterFirst(a, b + "\n");
      LinesOfEntry(b);
    } else {
      assert a + "\n" == a + "\n";
      LinesOfEntry(a);
    }
  }

  /** A '\r' before a query and its newline: a '\n' of its own unless the query is empty. */
  lemma TranslateCarriageReturn(b: string)
    requires NoLineBreak(b)
    ensures Translate("\r" + b + "\n") == if |b| > 0 then "\n" + (b + "\n") else "\n"
  {
    var x := b + "\n";
    assert '\r' !in x;
    assert "\r" + b + "\n" == ['\r'] + x;
    if |b| > 0 {
      assert x[0] == b[0];
      LoneCarriageReturn(x);
    } else {
      assert ['\r'] + x == "\r\n";
      assert "\r\n"[2..] == "";
    }
  }

  lemma LoneCarriageReturn(x: string)
    requires |x| > 0 && x[0] != '\n'
    ensures Translate(['\r'] + x) == "\n" + Translate(x)
  {
    assert (['\r'] + x)[1..] == x;
  }

  /** A first line without a newline inside, then the lines of the rest. */
  lemma LinesAfterFirst(a: string, x: string)
    requires '\n' !in a
    ensures Lines(a + ("\n" + x)) == [a + "\n"] + Lines(x)
  {
    assert a + ("\n" + x) == a + ['\n'] + x;
    TakeUntilBefore(a, '\n', x);
    LinesStep(a + ['\n'] + x, a, x);
  }

  /**
   * A log whose last line lacks its newline (only possible if the file was
   * edited by hand) fuses that line with the next appended entry: the lines
   * before it are kept, and the rest is read from the fused text.
   */
  lemma UnterminatedLogFusesEntry(content: string, query: string)
    requires |content| > 0 && content[|content| - 1] != '\n' && content[|content| - 1] != '\r'
    ensures var lines := ReadLines(content);
            |lines| > 0
            && ReadLines(AppendEntry(content, query))
               == lines[..|lines| - 1] + Lines(lines[|lines| - 1] + Translate(query + "\n"))
    ensures NoLineBreak(query) ==>
              var lines := ReadLines(content);
              ReadLines(AppendEntry(content, query))
              == lines[..|lines| - 1] + [lines[|lines| - 1] + query + "\n"]
  {
    var text := Translate(content);
    TranslateLast(content);
    assert AppendEntry(content, query) == content + (query + "\n");
    TranslateConcat(content, query + "\n");
    LinesFuse(text, Translate(query + "\n"));
    if NoLineBreak(query) {
      var last := Lines(text)[|Lines(text)| - 1];
      assert '\r' !in query + "\n";
      assert last + (query + "\n") == (last + query) + "\n";
      LinesOfEntry(last + query);
    }
  }

  /**
   * Lines of a text that does not end in a newline, followed by more text:
   * its last line runs on into the more text.
   */
  lemma {:induction false} LinesFuse(text: string, more: string)
    requires |text| > 0 && text[|text| - 1] != '\n'
    ensures var lines := Lines(text);
            |lines| > 0 && '\n' !in lines[|lines| - 1]
            && Lines(text + more) == lines[..|lines| - 1] + Lines(lines[|lines| - 1] + more)
    decreases |text|
  {
    var head := TakeUntil(text, '\n');
    if |head| == |text| {
      assert Lines(text) == [text];
    } else {
      var tail := text[|head| + 1..];
      assert |tail| > 0 && tail[|tail| - 1] == text[|text| - 1];
      LinesFuse(tail, more);
      TakeUntilExtend(text, more);
      SliceOfConcat(text, more, |head| + 1);
      LinesFuseStep(text, more, head, tail);
    }
  }

  lemma LinesFuseStep(text: string, more: string, head: string, tail: string)
    requires head == TakeUntil(text, '\n') && |head| < |text| && tail == text[|head| + 1..]
    requires TakeUntil(text + more, '\n') == head && (text + more)[|head| + 1..] == tail + more
    requires var lines := Lines(tail);
             |lines| > 0 && '\n' !in lines[|lines| - 1]
             && Lines(tail + more) == lines[..|lines| - 1] + Lines(lines[|lines| - 1] + more)
    ensures var lines := Lines(text);
            |lines| > 0 && '\n' !in lines[|lines| - 1]
            && Lines(text + more) == lines[..|lines| - 1] + Lines(lines[|lines| - 1] + more)
  {
    var line := head + "\n";
    var lines := Lines(tail);
    var last := lines[|lines| - 1];
    assert Lines(text) == [line] + lines by {
      LinesStep(text, head, tail);
    }
    assert Lines(text + more) == [line] + Lines(tail + more) by {
      LinesStep(text + more, head, tail + more);
    }
    ConsInitLast(line, lines);
    ConsConcat(line, lines[..|lines| - 1], Lines(last + more));
  }

  lemma ConsInitLast(x: string, a: seq<string>)
    requires |a| > 0
    ensures ([x] + a)[..|a|] == [x] + a[..|a| - 1] && ([x] + a)[|a|] == a[|a| - 1]
  {
  }

  /**
   * The set loaded from a log after an entry was appended to it: the old set
   * plus what the entry loads as on its own, which is the stripped query when
   * it holds no line break.
   */
  lemma LoadAppend(content: string, query: string)
    requires Terminated(content)
    ensures Load(AppendEntry(content, query)) == Load(content) + Load(query + "\n")
    ensures NoLineBreak(query) ==>
              Load(AppendEntry(content, query)) == Load(content) + Stripped([query])
  {
    LinesAppend(content, query);
    StrippedAppend(ReadLines(content), ReadLines(query + "\n"));
    if NoLineBreak(query) {
      EntryLines(query);
      StrippedNewline(query);
    }
  }

  /**
   * A query with a carriage return inside is recorded as one entry but
   * loaded back as two: the stripped text before it and after it.
   */
  lemma CarriageReturnSplitsEntry(log: string, a: string, b: string)
    requires Terminated(log)
    requires NoLineBreak(a) && NoLineBreak(b)
    ensures Load(AppendEntry(log, a + "\r" + b)) == Load(log) + Stripped([a]) + Stripped([b])
  {
    LoadAppend(log, a + "\r" + b);
    SplitEntryLines(a, b);
    assert (a + "\r" + b) + "\n" == a + "\r" + b + "\n";
    StrippedNewline(a);
    if |b| > 0 {
      StrippedAppend([a + "\n"], [b + "\n"]);
      StrippedNewline(b);
    } else {
      assert Strip(b) == "";
      StrippedOne(b);
    }
  }

  lemma StrippedNewline(query: string)
    ensures Stripped([query + "\n"]) == Stripped([query])
  {
    TrimSnoc(query, IsSpace, '\n');
    StrippedOne(query + "\n");
    StrippedOne(query);
  }

  lemma StrippedOne(line: string)
    ensures Stripped([line]) == if Strip(line) != "" then {Strip(line)} else {}
  {
  }

  // ---------------------------------------------------------------------
  // download_song
  // ---------------------------------------------------------------------

  /** What one call of `download_song` did. */
  datatype Attempt = Skipped | Failed | Downloaded

  /**
   * `download_song(query, ...)` against the set loaded at start-up: a query in
   * the set is skipped; otherwise the download is tried (`fetched` is whether
   * it succeeded) and only a success is appended to the log.
   */
  function DownloadSong(query: string, done: set<string>, log: string, fetched: bool): (r: (Attempt, string))
    ensures r.0 == Skipped <==> query in done
    ensures r.0 == Downloaded <==> query !in done && fetched
    ensures r.0 != Downloaded ==> r.1 == log
    ensures r.0 == Downloaded ==> r.1 == log + query + "\n"
  {
    if query in done then (Skipped, log)
    else if !fetched then (Failed, log)
    else (Downloaded, AppendEntry(log, query))
  }

  /**
   * After a successful download the query is found in the next run's set
   * exactly when it has no surrounding whitespace: the log stores the query
   * as given but loading strips every line, and a line break inside the query
   * splits it into several lines.
   */
  lemma DownloadedQueryIsRecognisedNextRun(query: string, done: set<string>, log: string)
    requires Terminated(log) && query !in done
    ensures var after := DownloadSong(query, done, log, true).1;
            query in Load(after)
            <==> query in Load(log)
                 || (|query| > 0 && Strip(query) == query && NoLineBreak(query))
  {
    LoadAppend(log, query);
    if query in Load(query + "\n") {
      LoadedEntriesAreStripped(query + "\n", query);
      TrimUnpadded(query, IsSpace);
    }
    if NoLineBreak(query) {
      StrippedOne(query);
    }
  }

  /** The entries appended for `queries`, one line each, in order. */
  function Appended(queries: seq<string>): string
    decreases |queries|
  {
    if |queries| == 0 then "" else queries[0] + "\n" + Appended(queries[1..])
  }

  /** The queries whose attempt was a successful download, in order. */
  function DownloadedQueries(tracks: seq<string>, attempts: seq<Attempt>): (r: seq<string>)
    requires |attempts| == |tracks|
    ensures |r| <= |tracks|
    decreases |tracks|
  {
    if |tracks| == 0 then []
    else (if attempts[0] == Downloaded then [tracks[0]] else [])
         + DownloadedQueries(tracks[1..], attempts[1..])
  }

  /**
   * The download loop of the main program: every track is handed to
   * `download_song` with the same set, which is never updated during the run.
   * `fetched[i]` is whether the download for the i-th track would succeed.
   */
  function RunDownloads(tracks: seq<string>, done: set<string>, log: string, fetched: seq<bool>)
    : (r: (seq<Attempt>, string))
    requires |fetched| == |tracks|
    ensures |r.0| == |tracks|
    ensures forall i :: 0 <= i < |tracks| ==> (r.0[i] == Skipped <==> tracks[i] in done)
    ensures forall i :: 0 <= i < |tracks| ==>
              (r.0[i] == Downloaded <==> tracks[i] !in done && fetched[i])
    ensures r.1 == log + Appended(DownloadedQueries(tracks, r.0))
    decreases |tracks|
  {
    if |tracks| == 0 then ([], log)
    else
      var first := DownloadSong(tracks[0], done, log, fetched[0]);
      var rest := RunDownloads(tracks[1..], done, first.1, fetched[1..]);
      assert Outcome(tracks[1..], done, first.1, fetched[1..], rest.0, rest.1);
      RunStep(tracks, done, log, fetched, first.0, first.1, rest.0, rest.1);
      ([first.0] + rest.0, rest.1)
  }

  /** What a run over `tracks` reports and leaves in the log. */
  predicate Outcome(tracks: seq<string>, done: set<string>, log: string, fetched: seq<bool>,
                    attempts: seq<Attempt>, after: string)
    requires |fetched| == |tracks|
  {
    && |attempts| == |tracks|
    && (forall i :: 0 <= i < |tracks| ==> (attempts[i] == Skipped <==> tracks[i] in done))
    && (forall i :: 0 <= i < |tracks| ==>
          (attempts[i] == Downloaded <==> tracks[i] !in done && fetched[i]))
    && after == log + Appended(DownloadedQueries(tracks, attempts))
  }

  /** The first call of `download_song` followed by the run over the remaining tracks. */
  lemma RunStep(tracks: seq<string>, done: set<string>, log: string, fetched: seq<bool>,
                a: Attempt, mid: string, later: seq<Attempt>, after: string)
    requires |fetched| == |tracks| > 0
    requires (a, mid) == DownloadSong(tracks[0], done, log, fetched[0])
    requires Outcome(tracks[1..], done, mid, fetched[1..], later, after)
    ensures Outcome(tracks, done, log, fetched, [a] + later, after)
  {
    var attempts := [a] + later;
    assert attempts[1..] == later;
    forall i | 1 <= i < |tracks|
      ensures tracks[i] == tracks[1..][i - 1] && fetched[i] == fetched[1..][i - 1]
              && attempts[i] == later[i - 1]
    {
    }
    var own: seq<string> := if a == Downloaded then [tracks[0]] else [];
    var rest := DownloadedQueries(tracks[1..], later);
    assert DownloadedQueries(tracks, attempts) == own + rest;
    assert mid == log + Appended(own) by {
      if a == Downloaded {
        assert Appended(own) == tracks[0] + "\n" + Appended([]);
      }
    }
    AppendedConcat(own, rest);
  }

  lemma AppendedConcat(own: seq<string>, rest: seq<string>)
    requires |own| <= 1
    ensures Appended(own + rest) == Appended(own) + Appended(rest)
  {
    if |own| == 1 {
      assert (own + rest)[1..] == rest;
      assert Appended(own) == own[0] + "\n" + Appended([]);
    } else {
      assert own + rest == rest;
    }
  }

  /** A run never rewrites what the log already held: it only appends. */
  lemma RunOnlyAppends(tracks: seq<string>, done: set<string>, log: string, fetched: seq<bool>)
    requires |fetched| == |tracks|
    ensures log <= RunDownloads(tracks, done, log, fetched).1
  {
  }

  lemma {:induction false} AppendedTerminated(log: string, queries: seq<string>)
    requires Terminated(log)
    ensures Terminated(log + Appended(queries))
    decreases |queries|
  {
    if |queries| == 0 {
      assert log + Appended(queries) == log;
    } else {
      AppendedStep(log, queries);
      AppendedTerminated(AppendEntry(log, queries[0]), queries[1..]);
    }
  }

  lemma AppendedStep(log: string, queries: seq<string>)
    requires |queries| > 0
    ensures log + Appended(queries) == AppendEntry(log, queries[0]) + Appended(queries[1..])
  {
    var q := queries[0];
    var tail := Appended(queries[1..]);
    assert Appended(queries) == q + "\n" + tail;
    assert AppendEntry(log, q) == log + q + "\n";
    ConcatAssoc(log, q, "\n", tail);
  }

  lemma ConcatAssoc(a: string, b: string, c: string, d: string)
    ensures a + (b + c + d) == (a + b + c) + d
  {
  }

  lemma StrippedCons(queries: seq<string>)
    requires |queries| > 0
    ensures Stripped(queries) == Stripped([queries[0]]) + Stripped(queries[1..])
  {
    assert queries == [queries[0]] + queries[1..];
    StrippedAppend([queries[0]], queries[1..]);
  }

  /** What the records of `queries` load as, each record read on its own. */
  function Recorded(queries: seq<string>): set<string>
    decreases |queries|
  {
    if |queries| == 0 then {} else Load(queries[0] + "\n") + Recorded(queries[1..])
  }

  /** Queries without line breaks are recorded as their stripped, non-empty forms. */
  lemma {:induction false} RecordedPlain(queries: seq<string>)
    requires forall k :: 0 <= k < |queries| ==> NoLineBreak(queries[k])
    ensures Recorded(queries) == Stripped(queries)
    decreases |queries|
  {
    if |queries| > 0 {
      var q := queries[0];
      assert forall k :: 0 <= k < |queries[1..]| ==> queries[1..][k] == queries[k + 1];
      RecordedPlain(queries[1..]);
      EntryLines(q);
      StrippedNewline(q);
      StrippedCons(queries);
    }
  }

  /**
   * The set loaded after appending several entries is the previous set plus
   * what each entry loads as on its own: the stripped, non-empty queries when
   * none holds a line break.
   */
  lemma {:induction false} LoadAppended(log: string, queries: seq<string>)
    requires Terminated(log)
    ensures Load(log + Appended(queries)) == Load(log) + Recorded(queries)
    ensures (forall k :: 0 <= k < |queries| ==> NoLineBreak(queries[k])) ==>
              Load(log + Appended(queries)) == Load(log) + Stripped(queries)
    decreases |queries|
  {
    if |queries| == 0 {
      assert log + Appended(queries) == log;
    } else {
      var q := queries[0];
      var later := queries[1..];
      var mid := AppendEntry(log, q);
      assert log + Appended(queries) == mid + Appended(later) by {
        AppendedStep(log, queries);
      }
      assert Load(mid) == Load(log) + Load(q + "\n") by {
        LoadAppend(log, q);
      }
      assert Load(mid + Appended(later)) == Load(mid) + Recorded(later) by {
        LoadAppended(mid, later);
      }
      UnionStep(Load(log), Load(mid), Load(mid + Appended(later)),
                Load(q + "\n"), Recorded(later), Recorded(queries));
    }
    if forall k :: 0 <= k < |queries| ==> NoLineBreak(queries[k]) {
      RecordedPlain(queries);
    }
  }

  lemma UnionStep(before: set<string>, mid: set<string>, after: set<string>,
                  first: set<string>, later: set<string>, all: set<string>)
    requires mid == before + first && after == mid + later && all == first + later
    ensures after == before + all
  {
  }

  /**
   * The set the next run loads is this run's set plus what the queries
   * downloaded in this run load as: their stripped, non-empty forms when no
   * track holds a line break. The log stays newline-terminated.
   */
  lemma RunExtendsLoadedSet(tracks: seq<string>, log: string, fetched: seq<bool>)
    requires |fetched| == |tracks|
    requires Terminated(log)
    ensures var after := RunDownloads(tracks, Load(log), log, fetched).1;
            var got := DownloadedQueries(tracks, RunDownloads(tracks, Load(log), log, fetched).0);
            Terminated(after) && Load(after) == Load(log) + Recorded(got)
    ensures (forall k :: 0 <= k < |tracks| ==> NoLineBreak(tracks[k])) ==>
              var after := RunDownloads(tracks, Load(log), log, fetched).1;
              var got := DownloadedQueries(tracks, RunDownloads(tracks, Load(log), log, fetched).0);
              Load(after) == Load(log) + Stripped(got)
  {
    var r := RunDownloads(tracks, Load(log), log, fetched);
    var got := DownloadedQueries(tracks, r.0);
    DownloadedAreTracks(tracks, r.0);
    LoadAppended(log, got);
    AppendedTerminated(log, got);
    if forall k :: 0 <= k < |tracks| ==> NoLineBreak(tracks[k]) {
      assert forall k :: 0 <= k < |got| ==> NoLineBreak(got[k]);
    }
  }

  lemma {:induction false} DownloadedAreTracks(tracks: seq<string>, attempts: seq<Attempt>)
    requires |attempts| == |tracks|
    ensures forall k :: 0 <= k < |DownloadedQueries(tracks, attempts)| ==>
              DownloadedQueries(tracks, attempts)[k] in tracks
    decreases |tracks|
  {
    if |tracks| > 0 {
      DownloadedAreTracks(tracks[1..], attempts[1..]);
      var tail := DownloadedQueries(tracks[1..], attempts[1..]);
      assert forall x :: x in tail ==> x in tracks;
    }
  }

  /**
   * The set is not updated during a run, so a query listed twice is
   * downloaded, and logged, twice.
   */
  lemma RepeatedQueryDownloadedTwice(query: string, done: set<string>, log: string)
    requires query !in done
    ensures RunDownloads([query, query], done, log, [true, true])
            == ([Downloaded, Downloaded], log + query + "\n" + query + "\n")
  {
    var r := RunDownloads([query, query], done, log, [true, true]);
    assert [query, query][1..] == [query];
    assert [true, true][1..] == [true];
    assert r.0 == [Downloaded, Downloaded];
    assert DownloadedQueries([query, query], r.0) == [query, query] by {
      assert DownloadedQueries([query], [Downloaded]) == [query];
    }
    assert Appended([query]) == query + "\n" by {
      assert Appended([query]) == query + "\n" + "";
    }
    assert Appended([query, query]) == query + "\n" + (query + "\n") by {
      assert Appended([query]) == query + "\n";
    }
    assert r.1 == log + Appended([query, query]);
    assert r.1 == log + query + "\n" + query + "\n";
  }
}
