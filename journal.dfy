/**
 * The service's activity log file (`printer_log.txt`). Every log call reads the
 * file as a list of lines, appends one timestamped entry to the list as one
 * more element, keeps only the newest `MaxLogLines` elements and writes them
 * back. An entry whose message holds a newline is one element but several
 * lines, so the file can then hold more than `MaxLogLines` lines; `Rotate` is
 * the rotation that keeps the line limit for every message.
 *
 * The file is modelled by its text. `ReadLines` is what reading it line by line
 * yields (each line keeps its newline) and `Concat` is what writing a list of
 * lines back produces, so `Lines()` is the list view of the file.
 */
module Journal {

  /** Number of lines the log file keeps. */
  const MaxLogLines: nat := 10

  /** A complete line: it ends in a newline and holds no other newline. */
  predicate IsLine(s: string) {
    |s| > 0 && s[|s| - 1] == '\n' && forall i :: 0 <= i < |s| - 1 ==> s[i] != '\n'
  }

  predicate AllLines(xs: seq<string>) {
    forall i :: 0 <= i < |xs| ==> IsLine(xs[i])
  }

  /** Text that is empty or ends in a newline. */
  predicate Terminated(s: string) {
    s == [] || s[|s| - 1] == '\n'
  }

  /** The text that writing the lines `xs` one after another produces. */
  function Concat(xs: seq<string>): string {
    if xs == [] then [] else xs[0] + Concat(xs[1..])
  }

  /** Length of the first line of `s`, its newline included. */
  function LineLength(s: string): (n: nat)
    requires s != []
    ensures 0 < n <= |s|
    ensures forall i :: 0 <= i < n - 1 ==> s[i] != '\n'
    ensures n < |s| ==> s[n - 1] == '\n'
  {
    if s[0] == '\n' || |s| == 1 then 1 else 1 + LineLength(s[1..])
  }

  /**
   * The lines of `s` as reading the file line by line returns them: each ends
   * at a newline, the newline kept, and a last line without a newline is kept
   * as it is. Writing them back reproduces the text.
   */
  function ReadLines(s: string): (r: seq<string>)
    decreases |s|
    ensures Concat(r) == s
    ensures forall i :: 0 <= i < |r| ==> r[i] != []
  {
    if s == [] then []
    else
      var n := LineLength(s);
      assert s[..n] + s[n..] == s;
      [s[..n]] + ReadLines(s[n..])
  }

  /** The last `n` elements of `xs`, or all of it when it is shorter. */
  function Tail<T>(xs: seq<T>, n: nat): (r: seq<T>)
    ensures |r| == if |xs| < n then |xs| else n
    ensures r == xs[|xs| - |r|..]
  {
    if |xs| > n then xs[|xs| - n..] else xs
  }

  /** The line one log call writes: `[<timestamp>] <message>` and a newline. */
  function LogEntry(timestamp: string, message: string): string {
    "[" + timestamp + "] " + message + "\n"
  }

  /**
   * The log file after one call, as the service writes it: the file's lines
   * with the entry appended as ONE more list element, truncated to the newest
   * `MaxLogLines` elements.
   */
  function RotateAsWritten(prior: string, entry: string): string {
    Concat(Tail(ReadLines(prior) + [entry], MaxLogLines))
  }

  /**
   * The log file after one call, as intended: the newest `MaxLogLines` lines
   * of the file with the entry appended, the entry split into lines as well.
   */
  function Rotate(prior: string, entry: string): string {
    Concat(Tail(ReadLines(prior + entry), MaxLogLines))
  }

  /** The log file after a sequence of calls, each of which read the file successfully. */
  function RotateAll(prior: string, entries: seq<string>): string
    decreases |entries|
  {
    if entries == [] then prior else RotateAll(RotateAsWritten(prior, entries[0]), entries[1..])
  }

  // ---------------------------------------------------------------------------
  // Lines, reading and writing

  lemma {:induction false} ConcatAppend(xs: seq<string>, ys: seq<string>)
    ensures Concat(xs + ys) == Concat(xs) + Concat(ys)
  {
    if xs == [] {
      assert xs + ys == ys;
    } else {
      assert (xs + ys)[1..] == xs[1..] + ys;
      ConcatAppend(xs[1..], ys);
    }
  }

  /** The first line of a text that starts with a complete line is that line. */
  lemma {:induction false} LineLengthOfLine(x: string, rest: string)
    requires IsLine(x)
    ensures LineLength(x + rest) == |x|
  {
    if |x| > 1 {
      assert x[0] != '\n';
      assert (x + rest)[1..] == x[1..] + rest;
      LineLengthOfLine(x[1..], rest);
    }
  }

  /** A list broken at newlines: every element but the last is a complete line, and the last holds a newline only at its end. */
  predicate BrokenAtNewlines(xs: seq<string>) {
    (forall i :: 0 <= i < |xs| - 1 ==> IsLine(xs[i])) &&
    (xs != [] ==> IsLine(xs[|xs| - 1]) || '\n' !in xs[|xs| - 1])
  }

  /** Reading splits the text at its newlines: each element ends at the first newline after the previous one. */
  lemma {:induction false} ReadLinesSplitsAtNewlines(s: string)
    ensures BrokenAtNewlines(ReadLines(s))
    decreases |s|
  {
    if s != [] {
      var n := LineLength(s);
      var r := ReadLines(s);
      var rest := ReadLines(s[n..]);
      assert r == [s[..n]] + rest;
      ReadLinesSplitsAtNewlines(s[n..]);
      if n < |s| {
        assert IsLine(s[..n]);
        assert s[n..] != [];
        forall i | 0 <= i < |r| - 1 ensures IsLine(r[i]) {
          if i > 0 { assert r[i] == rest[i - 1]; }
        }
        assert r[|r| - 1] == rest[|rest| - 1];
      } else {
        assert s[..n] == s;
        assert s[n..] == [];
        assert r == [s];
        if s[|s| - 1] != '\n' {
          assert forall i :: 0 <= i < |s| ==> s[i] != '\n';
        }
      }
    }
  }

  /**
   * Only one list of non-empty elements broken at newlines writes out to a
   * given text, so the split that reading makes is the only one there is.
   */
  lemma {:induction false} ReadLinesUnique(s: string, xs: seq<string>)
    requires Concat(xs) == s && BrokenAtNewlines(xs)
    requires forall i :: 0 <= i < |xs| ==> xs[i] != []
    ensures xs == ReadLines(s)
    decreases |xs|
  {
    if xs != [] {
      var x := xs[0];
      var tail := xs[1..];
      assert s == x + Concat(tail);
      if |xs| > 1 {
        assert IsLine(x);
        LineLengthOfLine(x, Concat(tail));
        assert s[..|x|] == x;
        assert s[|x|..] == Concat(tail);
        assert BrokenAtNewlines(tail) by {
          forall i | 0 <= i < |tail| - 1 ensures IsLine(tail[i]) {
            assert tail[i] == xs[i + 1];
          }
          assert tail[|tail| - 1] == xs[|xs| - 1];
        }
        assert forall i :: 0 <= i < |tail| ==> tail[i] == xs[i + 1];
        ReadLinesUnique(Concat(tail), tail);
        assert xs == [x] + tail;
      } else {
        assert tail == [];
        assert Concat(tail) == [];
        assert s == x;
        WholeLine(x);
        assert ReadLines(s) == [s] + ReadLines(s[|s|..]);
        assert s[|s|..] == [];
      }
    }
  }

  /** A non-empty text that holds a newline at most at its end is read as one element. */
  lemma WholeLine(x: string)
    requires x != [] && (IsLine(x) || '\n' !in x)
    ensures LineLength(x) == |x|
  {
    if IsLine(x) {
      LineLengthOfLine(x, []);
      assert x + [] == x;
    } else {
      NoNewlineLength(x);
    }
  }

  lemma {:induction false} NoNewlineLength(x: string)
    requires x != [] && '\n' !in x
    ensures LineLength(x) == |x|
    decreases |x|
  {
    if |x| > 1 {
      assert x[0] != '\n';
      assert '\n' !in x[1..];
      NoNewlineLength(x[1..]);
    }
  }

  /** Reading back what was written as complete lines gives the same lines. */
  lemma {:induction false} ReadConcat(xs: seq<string>)
    requires AllLines(xs)
    ensures ReadLines(Concat(xs)) == xs
  {
    if xs != [] {
      var s := Concat(xs);
      assert s == xs[0] + Concat(xs[1..]);
      LineLengthOfLine(xs[0], Concat(xs[1..]));
      assert s[..|xs[0]|] == xs[0];
      assert s[|xs[0]|..] == Concat(xs[1..]);
      assert AllLines(xs[1..]) by {
        forall i | 0 <= i < |xs| - 1 ensures IsLine(xs[1..][i]) {
          assert xs[1..][i] == xs[i + 1];
        }
      }
      ReadConcat(xs[1..]);
    }
  }

  /** A text that ends in a newline reads as complete lines. */
  lemma {:induction false} ReadLinesOfTerminated(s: string)
    requires Terminated(s)
    ensures AllLines(ReadLines(s))
    decreases |s|
  {
    if s != [] {
      var n := LineLength(s);
      assert IsLine(s[..n]);
      assert Terminated(s[n..]);
      ReadLinesOfTerminated(s[n..]);
      var r := ReadLines(s);
      assert r == [s[..n]] + ReadLines(s[n..]);
      forall i | 0 <= i < |r| ensures IsLine(r[i]) {
        if i > 0 { assert r[i] == ReadLines(s[n..])[i - 1]; }
      }
    }
  }

  /** Appending one complete line to a terminated text appends it to its lines. */
  lemma ReadLinesAppend(prior: string, entry: string)
    requires Terminated(prior) && IsLine(entry)
    ensures ReadLines(prior + entry) == ReadLines(prior) + [entry]
  {
    var xs := ReadLines(prior);
    ReadLinesOfTerminated(prior);
    ConcatAppend(xs, [entry]);
    assert Concat([entry]) == entry by {
      assert [entry][1..] == [];
    }
    assert AllLines(xs + [entry]) by {
      forall i | 0 <= i < |xs| + 1 ensures IsLine((xs + [entry])[i]) {
        if i < |xs| { assert (xs + [entry])[i] == xs[i]; }
      }
    }
    ReadConcat(xs + [entry]);
  }

  /** The newest lines of a list of complete lines, written and read back, are unchanged. */
  lemma ReadTailOfLines(all: seq<string>, n: nat)
    requires AllLines(all)
    ensures AllLines(Tail(all, n))
    ensures ReadLines(Concat(Tail(all, n))) == Tail(all, n)
    ensures Terminated(Concat(Tail(all, n)))
  {
    var kept := Tail(all, n);
    forall i | 0 <= i < |kept| ensures IsLine(kept[i]) {
      assert kept[i] == all[|all| - |kept| + i];
    }
    ReadConcat(kept);
    TerminatedConcat(kept);
  }

  lemma SplitFirst<T>(xs: seq<T>, ys: seq<T>)
    requires ys != []
    ensures xs + [ys[0]] + ys[1..] == xs + ys
  {
  }

  lemma TailOfLonger<T>(xs: seq<T>, ys: seq<T>, n: nat)
    requires |ys| >= n
    ensures Tail(xs + ys, n) == ys[|ys| - n..]
  {
  }

  lemma TailTail<T>(xs: seq<T>, ys: seq<T>, n: nat)
    requires ys != []
    ensures Tail(Tail(xs, n) + ys, n) == Tail(xs + ys, n)
  {
    var t := Tail(xs, n);
    assert t + ys == (xs + ys)[|xs| - |t|..];
  }

  /** A log entry is a single line exactly when neither its timestamp nor its message holds a newline. */
  lemma EntryIsLine(timestamp: string, message: string)
    ensures IsLine(LogEntry(timestamp, message)) <==> '\n' !in timestamp && '\n' !in message
  {
    var e := LogEntry(timestamp, message);
    assert e == "[" + timestamp + "] " + message + "\n";
    assert forall i :: 0 <= i < |timestamp| ==> e[1 + i] == timestamp[i];
    assert forall i :: 0 <= i < |message| ==> e[3 + |timestamp| + i] == message[i];
    if '\n' in timestamp {
      var i :| 0 <= i < |timestamp| && timestamp[i] == '\n';
      assert e[1 + i] == '\n';
    }
    if '\n' in message {
      var i :| 0 <= i < |message| && message[i] == '\n';
      assert e[3 + |timestamp| + i] == '\n';
    }
  }

  // ---------------------------------------------------------------------------
  // Properties of the rotation as written

  lemma TailAppendOne<T>(xs: seq<T>, x: T, n: nat)
    requires n > 0
    ensures Tail(xs + [x], n) == Tail(xs, n - 1) + [x]
  {
    var t := Tail(xs, n - 1);
    assert (xs + [x])[|xs| + 1 - (|t| + 1)..] == t + [x];
  }

  /**
   * Whatever the message, a log call writes the newest `MaxLogLines - 1` lines
   * of the file as it read them, followed by the whole new entry.
   */
  lemma RotateAsWrittenKeepsNewest(prior: string, entry: string)
    ensures RotateAsWritten(prior, entry) == Concat(Tail(ReadLines(prior), MaxLogLines - 1)) + entry
  {
    TailAppendOne(ReadLines(prior), entry, MaxLogLines);
    ConcatAppend(Tail(ReadLines(prior), MaxLogLines - 1), [entry]);
    ConcatShort(entry, entry);
  }

  /** The text of the kept newest elements is a suffix of the text of all of them. */
  lemma ConcatTailSuffix(xs: seq<string>, n: nat)
    ensures |Concat(Tail(xs, n))| <= |Concat(xs)|
    ensures Concat(Tail(xs, n)) == Concat(xs)[|Concat(xs)| - |Concat(Tail(xs, n))|..]
  {
    var t := Tail(xs, n);
    var k := |xs| - |t|;
    assert xs == xs[..k] + t;
    ConcatAppend(xs[..k], t);
  }

  /** A log call invents nothing: the new file is a suffix of the old text with the entry appended. */
  lemma RotateAsWrittenSuffix(prior: string, entry: string)
    ensures |RotateAsWritten(prior, entry)| <= |prior + entry|
    ensures RotateAsWritten(prior, entry)
         == (prior + entry)[|prior + entry| - |RotateAsWritten(prior, entry)|..]
  {
    ConcatAppend(ReadLines(prior), [entry]);
    ConcatShort(entry, entry);
    ConcatTailSuffix(ReadLines(prior) + [entry], MaxLogLines);
  }

  lemma TerminatedAppend(s: string, entry: string)
    requires entry != [] && entry[|entry| - 1] == '\n'
    ensures Terminated(s + entry)
  {
    assert (s + entry)[|s + entry| - 1] == entry[|entry| - 1];
  }

  lemma {:induction false} TerminatedConcat(xs: seq<string>)
    requires AllLines(xs)
    ensures Terminated(Concat(xs))
  {
    if xs != [] {
      assert AllLines(xs[1..]) by {
        forall i | 0 <= i < |xs| - 1 ensures IsLine(xs[1..][i]) {
          assert xs[1..][i] == xs[i + 1];
        }
      }
      TerminatedConcat(xs[1..]);
      assert IsLine(xs[0]);
    }
  }

  /**
   * For a single-line entry and a file that ends in a newline, the new file's
   * lines are the newest `MaxLogLines` of the old lines with the entry
   * appended: old lines keep their order and the entry comes last.
   */
  lemma RotateAppendsEntry(prior: string, entry: string)
    requires Terminated(prior) && IsLine(entry)
    ensures ReadLines(RotateAsWritten(prior, entry)) == Tail(ReadLines(prior) + [entry], MaxLogLines)
    ensures Terminated(RotateAsWritten(prior, entry))
    ensures |ReadLines(RotateAsWritten(prior, entry))|
         == if |ReadLines(prior)| + 1 < MaxLogLines then |ReadLines(prior)| + 1 else MaxLogLines
    ensures ReadLines(RotateAsWritten(prior, entry))[|ReadLines(RotateAsWritten(prior, entry))| - 1] == entry
  {
    ReadLinesAppend(prior, entry);
    ReadLinesOfTerminated(prior + entry);
    ReadTailOfLines(ReadLines(prior) + [entry], MaxLogLines);
  }

  /** A missing or unreadable file counts as empty: afterwards the file is the one entry, whatever it holds. */
  lemma RotateFromEmpty(entry: string)
    ensures RotateAsWritten("", entry) == entry
    ensures IsLine(entry) ==> ReadLines(RotateAsWritten("", entry)) == [entry]
  {
    assert ReadLines("") == [];
    assert [] + [entry] == [entry];
    ConcatShort(entry, entry);
    if IsLine(entry) {
      ReadConcat([entry]);
    }
  }

  /**
   * After a sequence of log calls with single-line entries, the file holds the
   * newest `MaxLogLines` lines of its old lines with the entries appended, in
   * the order they were logged.
   */
  lemma {:induction false} RotateAllKeepsNewest(prior: string, entries: seq<string>)
    requires Terminated(prior) && AllLines(entries) && entries != []
    ensures ReadLines(RotateAll(prior, entries)) == Tail(ReadLines(prior) + entries, MaxLogLines)
    decreases |entries|
  {
    var next := RotateAsWritten(prior, entries[0]);
    var first := ReadLines(prior) + [entries[0]];
    assert ReadLines(next) == Tail(first, MaxLogLines) && Terminated(next) by {
      assert IsLine(entries[0]);
      RotateAppendsEntry(prior, entries[0]);
    }
    var rest := entries[1..];
    assert RotateAll(prior, entries) == RotateAll(next, rest);
    assert first + rest == ReadLines(prior) + entries by {
      SplitFirst(ReadLines(prior), entries);
    }
    if rest == [] {
      assert first == first + rest;
    } else {
      assert AllLines(rest) by {
        DropFirstLines(entries);
      }
      RotateAllKeepsNewest(next, rest);
      assert Tail(Tail(first, MaxLogLines) + rest, MaxLogLines) == Tail(first + rest, MaxLogLines) by {
        TailTail(first, rest, MaxLogLines);
      }
    }
  }

  lemma DropFirstLines(xs: seq<string>)
    requires AllLines(xs) && xs != []
    ensures AllLines(xs[1..])
  {
    forall i | 0 <= i < |xs| - 1 ensures IsLine(xs[1..][i]) {
      assert xs[1..][i] == xs[i + 1];
    }
  }

  /** After at least `MaxLogLines` calls the file is exactly the last `MaxLogLines` entries. */
  lemma RotateAllKeepsLastCalls(prior: string, entries: seq<string>)
    requires Terminated(prior) && AllLines(entries) && |entries| >= MaxLogLines
    ensures ReadLines(RotateAll(prior, entries)) == entries[|entries| - MaxLogLines..]
  {
    var all := ReadLines(prior) + entries;
    assert Tail(all, MaxLogLines) == entries[|entries| - MaxLogLines..] by {
      TailOfLonger(ReadLines(prior), entries, MaxLogLines);
    }
    assert ReadLines(RotateAll(prior, entries)) == Tail(all, MaxLogLines) by {
      RotateAllKeepsNewest(prior, entries);
    }
  }

  /**
   * A full file of `MaxLogLines` lines and a message holding one newline: the
   * written rotation keeps nine old lines plus the two-line entry, so the file
   * then holds `MaxLogLines + 1` lines.
   */
  lemma RotateAsWrittenExceedsLimit(full: seq<string>, timestamp: string, first: string, second: string)
    requires AllLines(full) && |full| == MaxLogLines
    requires '\n' !in timestamp && '\n' !in first && '\n' !in second
    ensures |ReadLines(RotateAsWritten(Concat(full), LogEntry(timestamp, first + "\n" + second)))|
         == MaxLogLines + 1
  {
    var head := LogEntry(timestamp, first);
    var tail := second + "\n";
    var entry := LogEntry(timestamp, first + "\n" + second);
    TwoLineEntry(timestamp, first, second);
    ReadConcat(full);
    ConcatShort(head, tail);
    assert Tail(full + [entry], MaxLogLines) == full[1..] + [entry];
    ConcatAppend(full[1..], [entry]);
    ConcatAppend(full[1..], [head, tail]);
    DropFirstAppendLines(full, head, tail);
    var split := full[1..] + [head, tail];
    ReadConcat(split);
    assert RotateAsWritten(Concat(full), entry) == Concat(full[1..] + [entry]);
    assert Concat(full[1..] + [entry]) == Concat(split);
    assert |split| == MaxLogLines + 1;
  }

  /** An entry whose message holds one newline is two complete lines. */
  lemma TwoLineEntry(timestamp: string, first: string, second: string)
    requires '\n' !in timestamp && '\n' !in first && '\n' !in second
    ensures LogEntry(timestamp, first + "\n" + second) == LogEntry(timestamp, first) + (second + "\n")
    ensures IsLine(LogEntry(timestamp, first)) && IsLine(second + "\n")
  {
    EntryIsLine(timestamp, first);
    var tail := second + "\n";
    assert forall i :: 0 <= i < |second| ==> tail[i] == second[i];
  }

  lemma ConcatShort(a: string, b: string)
    ensures Concat([a]) == a && Concat([a, b]) == a + b
  {
    assert [a][1..] == [];
    assert [a, b][1..] == [b];
    assert [b][1..] == [];
  }

  lemma DropFirstAppendLines(xs: seq<string>, a: string, b: string)
    requires AllLines(xs) && xs != [] && IsLine(a) && IsLine(b)
    ensures AllLines(xs[1..] + [a, b])
  {
    var ys := xs[1..] + [a, b];
    forall i | 0 <= i < |ys| ensures IsLine(ys[i]) {
      if i < |xs| - 1 { assert ys[i] == xs[i + 1]; }
    }
  }

  /** The smallest such case: ten lines "x", then a message "a\nb". */
  lemma MultilineMessageOverflows()
    ensures |ReadLines(RotateAsWritten(Concat(seq(MaxLogLines, _ => "x\n")), LogEntry("t", "a\nb")))|
         > MaxLogLines
  {
    var full := seq(MaxLogLines, _ => "x\n");
    assert AllLines(full) by {
      forall i | 0 <= i < |full| ensures IsLine(full[i]) {
        assert full[i] == "x\n";
      }
    }
    assert "a\nb" == "a" + "\n" + "b";
    RotateAsWrittenExceedsLimit(full, "t", "a", "b");
  }

  // ---------------------------------------------------------------------------
  // The intended rotation

  /**
   * After any log call under the intended rotation the file holds at most
   * `MaxLogLines` lines, they are the newest lines of the file with the entry
   * appended, and the file still ends in a newline.
   */
  lemma RotateKeepsNewestLines(prior: string, timestamp: string, message: string)
    ensures ReadLines(Rotate(prior, LogEntry(timestamp, message)))
         == Tail(ReadLines(prior + LogEntry(timestamp, message)), MaxLogLines)
    ensures |ReadLines(Rotate(prior, LogEntry(timestamp, message)))| <= MaxLogLines
    ensures Terminated(Rotate(prior, LogEntry(timestamp, message)))
  {
    ReadLinesOfTerminated(prior + LogEntry(timestamp, message));
    ReadTailOfLines(ReadLines(prior + LogEntry(timestamp, message)), MaxLogLines);
  }

  /** For single-line entries and a file ending in a newline, the written rotation is the intended one. */
  lemma RotateAsWrittenAgrees(prior: string, entry: string)
    requires Terminated(prior) && IsLine(entry)
    ensures RotateAsWritten(prior, entry) == Rotate(prior, entry)
  {
    ReadLinesAppend(prior, entry);
  }

  /** A log entry ends in a newline. */
  lemma EntryEndsLine(timestamp: string, message: string)
    ensures LogEntry(timestamp, message) != []
    ensures LogEntry(timestamp, message)[|LogEntry(timestamp, message)| - 1] == '\n'
  {
  }

  /** What one log call writes, gathered for the log file's method. */
  lemma LogCallFacts(prior: string, entry: string)
    requires entry != [] && entry[|entry| - 1] == '\n'
    ensures Terminated(RotateAsWritten(prior, entry))
    ensures RotateAsWritten(prior, entry) == Concat(Tail(ReadLines(prior), MaxLogLines - 1)) + entry
    ensures prior == "" ==> RotateAsWritten(prior, entry) == entry
  {
    var kept := Concat(Tail(ReadLines(prior), MaxLogLines - 1));
    assert RotateAsWritten(prior, entry) == kept + entry by {
      RotateAsWrittenKeepsNewest(prior, entry);
    }
    assert Terminated(kept + entry) by {
      TerminatedAppend(kept, entry);
    }
    assert prior == "" ==> RotateAsWritten(prior, entry) == entry by {
      RotateFromEmpty(entry);
    }
  }

  /** The lines one log call leaves when its entry is one line and the file ends in a newline. */
  lemma LogCallLines(prior: string, timestamp: string, message: string)
    requires '\n' !in timestamp && '\n' !in message && Terminated(prior)
    ensures |ReadLines(RotateAsWritten(prior, LogEntry(timestamp, message)))| <= MaxLogLines
    ensures ReadLines(RotateAsWritten(prior, LogEntry(timestamp, message)))
         == Tail(ReadLines(prior) + [LogEntry(timestamp, message)], MaxLogLines)
  {
    EntryIsLine(timestamp, message);
    RotateAppendsEntry(prior, LogEntry(timestamp, message));
  }

  // ---------------------------------------------------------------------------
  // The log file

  class LogJournal {
    /** Whether the log file exists. */
    var present: bool
    /** The file's text. */
    var text: string

    /** The file's lines; a missing file has none. */
    function Lines(): seq<string>
      reads this
    {
      if present then ReadLines(text) else []
    }

    constructor (present: bool, text: string)
      ensures this.present == present && this.text == text
    {
      this.present := present;
      this.text := text;
    }

    /**
     * One log call. `readOk` is false when reading the existing file raises;
     * the call then goes on as if the file were empty.
     */
    method Log(message: string, timestamp: string, readOk: bool)
      modifies this
      ensures present
      ensures text == RotateAsWritten(if old(present) && readOk then old(text) else "", LogEntry(timestamp, message))
      ensures Terminated(text)
      ensures old(present) && readOk ==>
        text == Concat(Tail(old(Lines()), MaxLogLines - 1)) + LogEntry(timestamp, message)
      ensures !(old(present) && readOk) ==> text == LogEntry(timestamp, message)
      ensures '\n' !in timestamp && '\n' !in message && (old(present) && readOk ==> Terminated(old(text)))
        ==> |Lines()| <= MaxLogLines &&
            Lines() == Tail((if old(present) && readOk then old(Lines()) else []) + [LogEntry(timestamp, message)],
                            MaxLogLines)
    {
      var entry := LogEntry(timestamp, message);
      ghost var prior := if present && readOk then text else "";
      ghost var priorLines := if present && readOk then Lines() else [];
      assert priorLines == ReadLines(prior);
      var lines: seq<string> := [];
      if present {
        if readOk {
          lines := ReadLines(text);
        }
      }
      assert lines == ReadLines(prior);
      lines := lines + [entry];
      if |lines| > MaxLogLines {
        lines := lines[|lines| - MaxLogLines..];
      }
      assert lines == Tail(ReadLines(prior) + [entry], MaxLogLines);
      text := Concat(lines);
      present := true;
      assert text == RotateAsWritten(prior, entry);
      assert Lines() == ReadLines(text);
      EntryEndsLine(timestamp, message);
      LogCallFacts(prior, entry);
      if '\n' !in timestamp && '\n' !in message && Terminated(prior) {
        LogCallLines(prior, timestamp, message);
      }
    }
  }
}
