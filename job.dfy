/**
 * The pure steps of handling one print job: splitting the message into a job
 * id and a document URL, checking the paper size, and building the command
 * line of the PDF printing executable.
 */
module Job {
  import opened Options

  /** A print job as the message names it. */
  datatype Job = Job(id: string, url: string)

  /**
   * Splitting the message at its first comma: the id is everything before it,
   * the URL everything after it, further commas included. A message without
   * a comma has no job (the unpacking raises).
   */
  function SplitFirstComma(msg: string): (r: Option<Job>)
    ensures r.Some? <==> ',' in msg
    ensures r.Some? ==> ',' !in r.value.id && r.value.id + "," + r.value.url == msg
  {
    var k := FirstComma(msg);
    if k == |msg| then None
    else
      assert msg == msg[..k] + "," + msg[k + 1..];
      Some(Job(msg[..k], msg[k + 1..]))
  }

  /** The position of the first comma of `s`, or `|s|` when it has none. */
  function FirstComma(s: string): (k: nat)
    ensures k <= |s|
    ensures forall i :: 0 <= i < k ==> s[i] != ','
    ensures k < |s| ==> s[k] == ','
  {
    if s == [] || s[0] == ',' then 0 else 1 + FirstComma(s[1..])
  }

  /** A string splits at most one way around the first occurrence of a separator. */
  lemma {:induction false} SplitAtFirstUnique(a: string, b: string, c: string, d: string, sep: char)
    requires sep !in a && sep !in c
    requires a + [sep] + b == c + [sep] + d
    ensures a == c && b == d
  {
    var s := a + [sep] + b;
    if a == [] {
      assert s[0] == sep;
      assert |c| == 0;
      assert b == s[1..] == d;
    } else {
      assert s[0] == a[0];
      assert |c| > 0;
      assert a[1..] + [sep] + b == s[1..] == c[1..] + [sep] + d;
      SplitAtFirstUnique(a[1..], b, c[1..], d, sep);
      assert a == [a[0]] + a[1..];
      assert c == [c[0]] + c[1..];
    }
  }

  /** Joining an id without commas to any URL and splitting again gives back both. */
  lemma SplitJoin(id: string, url: string)
    requires ',' !in id
    ensures SplitFirstComma(id + "," + url) == Some(Job(id, url))
  {
    var msg := id + "," + url;
    assert msg[|id|] == ',';
    var j := SplitFirstComma(msg).value;
    SplitAtFirstUnique(j.id, j.url, id, url, ',');
  }

  /** Commas in the URL stay in the URL. */
  lemma SplitKeepsLaterCommas()
    ensures SplitFirstComma("job7,http://host/a,b.pdf") == Some(Job("job7", "http://host/a,b.pdf"))
  {
    assert "job7,http://host/a,b.pdf" == "job7" + "," + "http://host/a,b.pdf";
    SplitJoin("job7", "http://host/a,b.pdf");
  }

  /** An empty id is accepted: the message may start with its comma. */
  lemma SplitEmptyId(url: string)
    ensures SplitFirstComma("," + url) == Some(Job("", url))
  {
    assert "," + url == "" + "," + url;
    SplitJoin("", url);
  }

  /** The cache file a job's document is saved under. */
  function FileName(job: Job): string {
    job.id + ".pdf"
  }

  // ---------------------------------------------------------------------------
  // Paper size

  /**
   * A parsed floating-point value: a finite number, an infinity, or
   * not-a-number. Finite values are exact reals, without double rounding.
   */
  datatype Float = Finite(value: real) | Infinite(negative: bool) | NaN

  /**
   * A paper dimension as read from its entry field: the parsed number and the
   * text it prints as. A field that does not parse is `None`.
   */
  datatype Dimension = Dimension(number: Float, shown: string)

  /** The comparison `x <= 0` on doubles; every comparison with not-a-number is false. */
  predicate AtMostZero(x: Float) {
    match x
    case Finite(v) => v <= 0.0
    case Infinite(negative) => negative
    case NaN => false
  }

  /** The check as the handler writes it: both fields parse and neither is `<= 0`. */
  predicate AcceptedAsWritten(width: Option<Dimension>, height: Option<Dimension>) {
    width.Some? && height.Some? && !(AtMostZero(width.value.number) || AtMostZero(height.value.number))
  }

  predicate IsPositive(x: Float) {
    x.Finite? && x.value > 0.0
  }

  /** The check as intended: both dimensions are finite positive numbers. */
  predicate AcceptedPaperSize(width: Option<Dimension>, height: Option<Dimension>) {
    width.Some? && height.Some? && IsPositive(width.value.number) && IsPositive(height.value.number)
  }

  /** The written check accepts exactly the sizes whose dimensions are positive, infinite or not-a-number. */
  lemma AcceptedAsWrittenCases(width: Option<Dimension>, height: Option<Dimension>)
    ensures AcceptedAsWritten(width, height) <==>
      width.Some? && height.Some? &&
      (IsPositive(width.value.number) || width.value.number == Infinite(false) || width.value.number.NaN?) &&
      (IsPositive(height.value.number) || height.value.number == Infinite(false) || height.value.number.NaN?)
  {
    if width.Some? && height.Some? {
      var w := width.value.number;
      var h := height.value.number;
      assert !AtMostZero(w) <==> IsPositive(w) || w == Infinite(false) || w.NaN?;
      assert !AtMostZero(h) <==> IsPositive(h) || h == Infinite(false) || h.NaN?;
    }
  }

  /** On finite dimensions the written check and the intended one agree. */
  lemma PaperChecksAgreeOnFinite(width: Option<Dimension>, height: Option<Dimension>)
    requires width.Some? ==> width.value.number.Finite?
    requires height.Some? ==> height.value.number.Finite?
    ensures AcceptedAsWritten(width, height) <==> AcceptedPaperSize(width, height)
  {
    AcceptedAsWrittenCases(width, height);
  }

  /** A width of "nan" passes the written check although it is no size at all. */
  lemma NotANumberPassesAsWritten()
    ensures AcceptedAsWritten(Some(Dimension(NaN, "nan")), Some(Dimension(Finite(297.0), "297.0")))
    ensures !AcceptedPaperSize(Some(Dimension(NaN, "nan")), Some(Dimension(Finite(297.0), "297.0")))
  {
    AcceptedAsWrittenCases(Some(Dimension(NaN, "nan")), Some(Dimension(Finite(297.0), "297.0")));
  }

  /** So does a height of "inf". */
  lemma InfinityPassesAsWritten()
    ensures AcceptedAsWritten(Some(Dimension(Finite(210.0), "210.0")), Some(Dimension(Infinite(false), "inf")))
    ensures !AcceptedPaperSize(Some(Dimension(Finite(210.0), "210.0")), Some(Dimension(Infinite(false), "inf")))
  {
    AcceptedAsWrittenCases(Some(Dimension(Finite(210.0), "210.0")), Some(Dimension(Infinite(false), "inf")));
  }

  /** The intended check never accepts more than the written one. */
  lemma AcceptedIsAcceptedAsWritten(width: Option<Dimension>, height: Option<Dimension>)
    requires AcceptedPaperSize(width, height)
    ensures AcceptedAsWritten(width, height)
  {
    AcceptedAsWrittenCases(width, height);
  }

  // ---------------------------------------------------------------------------
  // The print command

  /** The print settings argument: `paperSize=<width>x<height>mm`. */
  function PaperSetting(width: Dimension, height: Dimension): string {
    "paperSize=" + width.shown + "x" + height.shown + "mm"
  }

  /** Printed numbers hold no `x`, so the setting determines both dimensions' texts. */
  lemma PaperSettingInjective(w1: Dimension, h1: Dimension, w2: Dimension, h2: Dimension)
    requires 'x' !in w1.shown && 'x' !in w2.shown
    requires PaperSetting(w1, h1) == PaperSetting(w2, h2)
    ensures w1.shown == w2.shown && h1.shown == h2.shown
  {
    var p := "paperSize=";
    assert PaperSetting(w1, h1)[|p|..] == w1.shown + "x" + (h1.shown + "mm");
    assert PaperSetting(w2, h2)[|p|..] == w2.shown + "x" + (h2.shown + "mm");
    SplitAtFirstUnique(w1.shown, h1.shown + "mm", w2.shown, h2.shown + "mm", 'x');
    assert h1.shown == (h1.shown + "mm")[..|h1.shown|];
    assert h2.shown == (h2.shown + "mm")[..|h2.shown|];
  }

  /** What the command line names: the executable, the printer, the settings and the document. */
  datatype Command = Command(executable: string, printer: string, setting: string, document: string)

  /** The argument vector the handler runs for `c`. */
  function PrintCommand(c: Command): seq<string> {
    [c.executable, "-print-to", c.printer, "-print-settings", c.setting, "-silent", c.document]
  }

  /** Each part of the command sits at its own position, so distinct commands run distinct argument vectors. */
  lemma PrintCommandInjective(c1: Command, c2: Command)
    requires PrintCommand(c1) == PrintCommand(c2)
    ensures c1 == c2
  {
    assert PrintCommand(c1)[0] == c1.executable && PrintCommand(c1)[2] == c1.printer;
    assert PrintCommand(c1)[4] == c1.setting && PrintCommand(c1)[6] == c1.document;
  }
}
