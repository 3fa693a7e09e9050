/** The dump file as text: what DumpFile and Save write and LoadFile reads. */
module DumpText {
  import opened Seqs
  import opened Order
  import opened Numbers
  import opened Options
  import Z = ZSet

  // Lines

  /** The first position of c, or |s|. */
  function Find(s: string, c: char): (i: nat)
    ensures i <= |s| && (i < |s| ==> s[i] == c)
    ensures forall k :: 0 <= k < i ==> s[k] != c
  {
    if |s| == 0 || s[0] == c then 0 else 1 + Find(s[1..], c)
  }

  /** Repeated getline. */
  function Lines(text: string): seq<string>
    decreases |text|
  {
    if |text| == 0 then []
    else
      var i := Find(text, '\n');
      if i == |text| then [text] else [text[..i]] + Lines(text[i + 1..])
  }

  /** GetObjectFromString: the text before and after the first ':', if there is one. */
  function Split(line: string): Option<(string, string)> {
    var i := Find(line, ':');
    if i == |line| then None else Some((line[..i], line[i + 1..]))
  }

  /** The insertions LoadFile makes. `key` and `val` are the two strings it keeps across lines:
      a line without ':' leaves them as they were. */
  function Loads(lines: seq<string>, key: string, val: string): (ops: seq<Z.Op>)
  {
    if |lines| == 0 then []
    else
      var (k, v) := match Split(lines[0]) case Some(p) => p case None => (key, val);
      var op := if k == "" || v == "" || Stoi(v).None? then [] else [Z.Insert(Key(k), Stoi(v).value)];
      op + Loads(lines[1..], k, v)
  }

  function LoadOps(text: string): seq<Z.Op> {
    Loads(Lines(text), "", "")
  }

  /** One round of LoadFile's loop. */
  lemma {:induction false} LoadsOne(lines: seq<string>, i: nat, key: string, val: string)
    requires i < |lines|
    ensures var (k, v) := match Split(lines[i]) case Some(p) => p case None => (key, val);
      Loads(lines[i..], key, val) ==
        (if k == "" || v == "" || Stoi(v).None? then [] else [Z.Insert(Key(k), Stoi(v).value)]) +
        Loads(lines[i + 1..], k, v)
  {
    assert lines[i..][1..] == lines[i + 1..];
  }

  lemma {:induction false} LoadsNone(lines: seq<string>, i: nat, key: string, val: string)
    requires i == |lines|
    ensures Loads(lines[i..], key, val) == []
  {
  }

  function Line(e: Entry): string {
    e.ele.text + ":" + IntText(e.score) + "\n"
  }

  /** What DumpFile and Save write. */
  function Text(c: seq<Entry>): string {
    if |c| == 0 then "" else Line(c[0]) + Text(c[1..])
  }

  lemma {:induction false} TextSnoc(c: seq<Entry>, e: Entry)
    ensures Text(c + [e]) == Text(c) + Line(e)
  {
    hide Line;
    if |c| == 0 {
      assert c + [e] == [e];
      assert Text([e]) == Line(e) + Text([]);
    } else {
      TextSnoc(c[1..], e);
      assert (c + [e])[1..] == c[1..] + [e];
      assert Line(c[0]) + (Text(c[1..]) + Line(e)) == Text(c) + Line(e);
    }
  }

  /** Members the format can carry. */
  predicate Clean(k: Key) {
    k.text != "" && ':' !in k.text && '\n' !in k.text
  }

  function InsertAll(c: seq<Entry>): (ops: seq<Z.Op>)
    ensures |ops| == |c| && forall i :: 0 <= i < |c| ==> ops[i] == Z.Insert(c[i].ele, c[i].score)
  {
    seq(|c|, i requires 0 <= i < |c| => Z.Insert(c[i].ele, c[i].score))
  }

  lemma {:induction false} FindAt(s: string, c: char, i: nat)
    requires i < |s| && s[i] == c && forall k :: 0 <= k < i ==> s[k] != c
    ensures Find(s, c) == i
  {
  }

  /** One dumped entry, read back. */
  lemma {:induction false} LineRead(e: Entry, rest: string)
    requires Clean(e.ele)
    ensures var body := e.ele.text + ":" + IntText(e.score);
      && Lines(Line(e) + rest) == [body] + Lines(rest)
      && Split(body) == Some((e.ele.text, IntText(e.score)))
  {
    var m, n := e.ele.text, IntText(e.score);
    var body := m + ":" + n;
    var text := Line(e) + rest;
    assert text == body + "\n" + rest;
    assert forall k :: 0 <= k < |body| ==>
      body[k] == if k < |m| then m[k] else if k == |m| then ':' else n[k - |m| - 1];
    FindAt(text, '\n', |body|);
    assert text[..|body|] == body && text[|body| + 1..] == rest;
    FindAt(body, ':', |m|);
    assert body[..|m|] == m && body[|m| + 1..] == n;
  }

  lemma {:induction false} NothingRead(key: string, val: string)
    ensures Loads(Lines(""), key, val) == []
  {
  }

  /** Loading a dump makes one insertion per entry, in order. */
  lemma {:induction false} DumpReads(c: seq<Entry>, key: string, val: string)
    requires forall e :: e in c ==> Clean(e.ele) && IsInt32(e.score)
    ensures Loads(Lines(Text(c)), key, val) == InsertAll(c)
  {
    hide Lines, Stoi, Split, IntText, Line, InsertAll;
    if |c| == 0 {
      NothingRead(key, val);
      assert InsertAll(c) == [];
    } else {
      var e := c[0];
      assert e in c;
      LineRead(e, Text(c[1..]));
      StoiReads(e.score);
      DumpReads(c[1..], e.ele.text, IntText(e.score));
      assert Lines(Text(c))[1..] == Lines(Text(c[1..]));
      assert InsertAll(c) == [Z.Insert(e.ele, e.score)] + InsertAll(c[1..]);
      assert Key(e.ele.text) == e.ele;
    }
  }

  lemma {:induction false} LinesHaveNoNewline(text: string)
    ensures forall l :: l in Lines(text) ==> '\n' !in l
    decreases |text|
  {
    if |text| > 0 {
      var i := Find(text, '\n');
      if i < |text| {
        LinesHaveNoNewline(text[i + 1..]);
      }
    }
  }

  /** Whatever the text, only clean members are ever loaded. */
  lemma {:induction false} LoadsAreClean(lines: seq<string>, key: string, val: string)
    requires forall l :: l in lines ==> '\n' !in l
    requires key == "" || Clean(Key(key))
    ensures forall op :: op in Loads(lines, key, val) ==> op.Insert? && Clean(op.ele)
  {
    if |lines| > 0 {
      var line := lines[0];
      assert line in lines;
      var i := Find(line, ':');
      var k := if i == |line| then key else line[..i];
      var v := if i == |line| then val else line[i + 1..];
      LoadsAreClean(lines[1..], k, v);
    }
  }

  // Dumps of which only the last entries are clean

  lemma {:induction false} Associates(a: string, b: string, c: string)
    ensures a + (b + c) == (a + b) + c
  {
  }

  lemma {:induction false} TextConcat(a: seq<Entry>, b: seq<Entry>)
    ensures Text(a + b) == Text(a) + Text(b)
  {
    hide Line;
    if |a| == 0 {
      assert a + b == b && Text(a) + Text(b) == Text(b);
    } else {
      TextConcat(a[1..], b);
      assert (a + b)[1..] == a[1..] + b;
      Associates(Line(a[0]), Text(a[1..]), Text(b));
    }
  }

  /** Text that ends with a line. */
  predicate Ended(text: string) {
    text == "" || text[|text| - 1] == '\n'
  }

  lemma {:induction false} TextEnded(c: seq<Entry>)
    ensures Ended(Text(c))
  {
    if |c| > 0 {
      TextEnded(c[1..]);
    }
  }

  lemma {:induction false} NoLines()
    ensures Lines("") == []
  {
  }

  lemma {:induction false} FirstLine(text: string, i: nat)
    requires i < |text| && text[i] == '\n' && forall k :: 0 <= k < i ==> text[k] != '\n'
    ensures Lines(text) == [text[..i]] + Lines(text[i + 1..])
  {
    FindAt(text, '\n', i);
  }

  /** What follows the end of a line does not change the lines before it. */
  lemma {:induction false} LinesConcat(a: string, b: string)
    requires Ended(a)
    ensures Lines(a + b) == Lines(a) + Lines(b)
    decreases |a|
  {
    hide Lines, Find;
    if |a| == 0 {
      NoLines();
      assert a + b == b;
    } else {
      var i := Find(a, '\n');
      FirstLine(a, i);
      FirstLine(a + b, i);
      assert (a + b)[..i] == a[..i] && (a + b)[i + 1..] == a[i + 1..] + b;
      LinesConcat(a[i + 1..], b);
    }
  }

  /** The lines, each with its end. */
  function Joined(lines: seq<string>): string {
    if |lines| == 0 then "" else lines[0] + "\n" + Joined(lines[1..])
  }

  lemma {:induction false} OneLine(text: string)
    requires text != "" && forall k :: 0 <= k < |text| ==> text[k] != '\n'
    ensures Lines(text) == [text]
  {
  }

  /** Nothing is lost between the lines; only a missing end of the last one is added. */
  lemma {:induction false} LinesJoined(text: string)
    ensures Joined(Lines(text)) == if Ended(text) then text else text + "\n"
    decreases |text|
  {
    hide Lines, Find;
    if |text| == 0 {
      NoLines();
    } else {
      var i := Find(text, '\n');
      if i == |text| {
        OneLine(text);
        assert Joined([text]) == text + "\n" + Joined([text][1..]);
      } else {
        FirstLine(text, i);
        var rest := text[i + 1..];
        LinesJoined(rest);
        assert ([text[..i]] + Lines(rest))[1..] == Lines(rest);
        assert text == text[..i] + "\n" + rest;
      }
    }
  }

  /** The loader reads on with the strings it has kept. */
  lemma {:induction false} LoadsConcat(a: seq<string>, b: seq<string>, key: string, val: string)
    returns (k: string, v: string)
    ensures Loads(a + b, key, val) == Loads(a, key, val) + Loads(b, k, v)
  {
    hide Loads, Split, Stoi;
    assert a[0..] == a && (a + b)[0..] == a + b;
    if |a| == 0 {
      LoadsNone(a, 0, key, val);
      assert a + b == b;
      k, v := key, val;
    } else {
      var (k', v') := match Split(a[0]) case Some(p) => p case None => (key, val);
      LoadsOne(a, 0, key, val);
      LoadsOne(a + b, 0, key, val);
      assert (a + b)[0] == a[0] && (a + b)[1..] == a[1..] + b;
      k, v := LoadsConcat(a[1..], b, k', v');
    }
  }

  /** Whatever is dumped before them, clean entries are read as they are. */
  lemma {:induction false} DumpReadsLast(a: seq<Entry>, b: seq<Entry>)
    requires forall e :: e in b ==> Clean(e.ele) && IsInt32(e.score)
    ensures LoadOps(Text(a + b)) == LoadOps(Text(a)) + InsertAll(b)
  {
    hide Lines, Loads, Text, InsertAll;
    TextConcat(a, b);
    TextEnded(a);
    LinesConcat(Text(a), Text(b));
    var k, v := LoadsConcat(Lines(Text(a)), Lines(Text(b)), "", "");
    DumpReads(b, k, v);
  }

  // The format by example

  /** One line per entry: the member, a colon, the score. */
  lemma {:induction false} TextExample()
    ensures Text([Entry(Key("a"), 5), Entry(Key("b"), -12)]) == "a:5\nb:-12\n"
  {
    var c := [Entry(Key("a"), 5), Entry(Key("b"), -12)];
    assert c[1..][1..] == [] && c[1..] == [Entry(Key("b"), -12)];
    assert Digits(12) == Digits(1) + ['2'] == "12";
    assert Line(c[0]) == "a:5\n" && Line(c[1]) == "b:-12\n";
    assert Text(c[1..]) == Line(c[1]) + Text(c[1..][1..]);
  }

  lemma {:induction false} SplitsAt(line: string, i: nat)
    requires i < |line| && line[i] == ':' && forall k :: 0 <= k < i ==> line[k] != ':'
    ensures Split(line) == Some((line[..i], line[i + 1..]))
  {
    FindAt(line, ':', i);
  }

  lemma {:induction false} NotSplit(line: string)
    requires ':' !in line
    ensures Split(line).None?
  {
  }

  lemma {:induction false} StoiFive()
    ensures Stoi("5") == Some(5)
  {
    StoiReads(5);
    assert IntText(5) == "5";
  }

  /** A line without a colon inserts the entry before it again. */
  lemma {:induction false} LoadExample()
    ensures LoadOps("a:5\nb\n") == [Z.Insert(Key("a"), 5), Z.Insert(Key("a"), 5)]
  {
    hide Lines, Find, Stoi, Split, Loads;
    var text := "a:5\nb\n";
    FirstLine(text, 3);
    assert text[..3] == "a:5" && text[4..] == "b\n";
    FirstLine("b\n", 1);
    assert "b\n"[..1] == "b" && "b\n"[2..] == "";
    NoLines();
    var lines := ["a:5", "b"];
    assert Lines(text) == lines;
    SplitsAt("a:5", 1);
    assert "a:5"[..1] == "a" && "a:5"[2..] == "5";
    NotSplit("b");
    StoiFive();
    LoadsOne(lines, 0, "", "");
    LoadsOne(lines, 1, "a", "5");
    LoadsNone(lines, 2, "a", "5");
    assert lines[0..] == lines;
  }
}
