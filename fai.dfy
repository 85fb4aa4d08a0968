/**
 * The text of a samtools `.fai` index as the index readers take it apart
 * (src/elba_faidx.c, fasta_index.c).
 *
 * Each line is NAME, LENGTH, OFFSET, LINEBASES and LINEWIDTH separated by
 * white space.  The readers cut the file at every '\n' (bytes after the last
 * one are dropped), read LENGTH, OFFSET and LINEBASES with
 * `sscanf(line, "%*s %zu %zu %zu %*zu", ...)`, and take the name as the
 * longest prefix of the line without white space.  `sscanf` is modelled by
 * a tokenizer over unsigned decimal fields (`Scan`); the writer side
 * (`FaiLine`, `FaiText`) is what samtools produces, and the lemmas at the
 * end show that reading it gives back its records and names.
 */
module FaiFormat {
  import opened Wrappers

  /** One index line as the readers keep it: `elba_faidx_record_t`, `fasta_record_t`. */
  datatype FaiRecord = FaiRecord(len: nat, pos: nat, bases: nat)

  /** `isspace` in the C locale: ' ', '\t', '\n', '\v', '\f', '\r'. */
  predicate IsSpace(c: char)
  {
    c == ' ' || ('\t' <= c <= '\r')
  }

  predicate IsDigit(c: char)
  {
    '0' <= c <= '9'
  }

  /** The runs of characters the readers skip over. */
  datatype CharClass = Space | NonSpace | DigitChar | NonNewline | NonNul

  predicate InClass(c: char, cls: CharClass)
  {
    match cls
    case Space => IsSpace(c)
    case NonSpace => !IsSpace(c)
    case DigitChar => IsDigit(c)
    case NonNewline => c != '\n'
    case NonNul => c != '\0'
  }

  /** The first position at or after i whose character is not in cls, or the end of s. */
  function SkipWhile(s: seq<char>, i: nat, cls: CharClass): (j: nat)
    requires i <= |s|
    ensures i <= j <= |s|
    ensures forall k :: i <= k < j ==> InClass(s[k], cls)
    ensures j < |s| ==> !InClass(s[j], cls)
    decreases |s| - i
  {
    if i == |s| || !InClass(s[i], cls) then i else SkipWhile(s, i + 1, cls)
  }

  /** A run of w in cls at position i, ended by the end of s or by a character outside cls, is skipped exactly. */
  lemma {:induction false} SkipRun(s: seq<char>, i: nat, w: seq<char>, cls: CharClass)
    requires i + |w| <= |s| && s[i .. i + |w|] == w
    requires forall k :: 0 <= k < |w| ==> InClass(w[k], cls)
    requires i + |w| == |s| || !InClass(s[i + |w|], cls)
    ensures SkipWhile(s, i, cls) == i + |w|
    decreases |w|
  {
    if |w| > 0 {
      assert s[i] == w[0];
      assert s[i + 1 .. i + 1 + |w[1..]|] == w[1..];
      SkipRun(s, i + 1, w[1..], cls);
    }
  }

  // ---------------------------------------------------------------------
  // Unsigned decimal numbers

  predicate AllDigits(ds: seq<char>)
  {
    forall k :: 0 <= k < |ds| ==> IsDigit(ds[k])
  }

  function DecimalValue(ds: seq<char>): nat
    requires AllDigits(ds)
    decreases |ds|
  {
    if |ds| == 0 then 0
    else 10 * DecimalValue(ds[..|ds| - 1]) + (ds[|ds| - 1] as int - '0' as int)
  }

  function Digit(d: nat): (c: char)
    requires d < 10
    ensures IsDigit(c) && c as int - '0' as int == d
  {
    ('0' as int + d) as char
  }

  /** `%zu` as printf writes it: the shortest decimal numeral of n. */
  function DecimalString(n: nat): (ds: seq<char>)
    ensures |ds| > 0 && AllDigits(ds)
  {
    if n < 10 then [Digit(n)] else DecimalString(n / 10) + [Digit(n % 10)]
  }

  /** Reading a printed number gives the number back. */
  lemma {:induction false} DecimalRoundTrip(n: nat)
    ensures DecimalValue(DecimalString(n)) == n
  {
    var ds := DecimalString(n);
    if n >= 10 {
      assert ds[..|ds| - 1] == DecimalString(n / 10);
      DecimalRoundTrip(n / 10);
    }
  }

  // ---------------------------------------------------------------------
  // `sscanf(line, "%*s %zu %zu %zu %*zu", &len, &pos, &bases)`

  /** `%zu` from position i on: white space, then at least one digit; the value and where it stops. */
  function ScanNumber(s: seq<char>, i: nat): (r: Option<(nat, nat)>)
    requires i <= |s|
    ensures r.Some? ==> i < r.value.1 <= |s|
  {
    var t := SkipWhile(s, i, Space);
    var e := SkipWhile(s, t, DigitChar);
    if e == t then None else Some((DecimalValue(s[t .. e]), e))
  }

  /** `sscanf` stops at the first NUL of the line. */
  function UpToNul(s: seq<char>): (r: seq<char>)
    ensures r == s[..SkipWhile(s, 0, NonNul)]
  {
    s[..SkipWhile(s, 0, NonNul)]
  }

  /**
   * The three fields the readers keep, or None when one of the four
   * conversions they rely on fails (the record would then hold whatever the
   * memory held before).
   */
  function Scan(line: seq<char>): Option<FaiRecord>
  {
    var s := UpToNul(line);
    var t := SkipWhile(s, 0, Space);
    var e := SkipWhile(s, t, NonSpace);
    if e == t then None else ScanFields(s, e)
  }

  /** The three `%zu` conversions after the skipped name, which ends at i. */
  function ScanFields(s: seq<char>, i: nat): Option<FaiRecord>
    requires i <= |s|
  {
    var f1 := ScanNumber(s, i);
    if f1.None? then None
    else
      var f2 := ScanNumber(s, f1.value.1);
      if f2.None? then None
      else
        var f3 := ScanNumber(s, f2.value.1);
        if f3.None? then None
        else Some(FaiRecord(f1.value.0, f2.value.0, f3.value.0))
  }

  /** The name the readers push: the longest prefix of the line without white space. */
  function NameOf(line: seq<char>): (name: seq<char>)
    ensures |name| <= |line| && name == line[..|name|]
    ensures forall k :: 0 <= k < |name| ==> !IsSpace(name[k])
    ensures |name| < |line| ==> IsSpace(line[|name|])
  {
    line[..SkipWhile(line, 0, NonSpace)]
  }

  /** The name is the only prefix that is free of white space and ends the line or meets white space. */
  lemma NameOfUnique(line: seq<char>, n: nat)
    requires n <= |line| && forall k :: 0 <= k < n ==> !IsSpace(line[k])
    requires n < |line| ==> IsSpace(line[n])
    ensures |NameOf(line)| == n
  {
  }

  // ---------------------------------------------------------------------
  // Lines

  /** `memchr(file + pos, '\n', |file| - pos)`: the first newline at or after pos. */
  function NextNewline(file: seq<char>, pos: nat): (r: Option<nat>)
    requires pos <= |file|
    ensures r.None? <==> forall k :: pos <= k < |file| ==> file[k] != '\n'
    ensures r.Some? ==> pos <= r.value < |file| && file[r.value] == '\n'
    ensures r.Some? ==> forall k :: pos <= k < r.value ==> file[k] != '\n'
  {
    var j := SkipWhile(file, pos, NonNewline);
    if j == |file| then None else Some(j)
  }

  /** The '\n'-terminated lines from pos on, without their newlines; what follows the last newline is dropped. */
  function Lines(file: seq<char>, pos: nat): seq<seq<char>>
    requires pos <= |file|
    decreases |file| - pos
  {
    if pos == |file| then []
    else
      match NextNewline(file, pos)
      case None => []
      case Some(j) => [file[pos .. j]] + Lines(file, j + 1)
  }

  /** Cutting the line at pos off the lines still to come. */
  lemma LinesStep(file: seq<char>, pos: nat, j: nat)
    requires pos < |file| && NextNewline(file, pos) == Some(j)
    ensures Lines(file, pos) == [file[pos .. j]] + Lines(file, j + 1)
  {
  }

  /** Lines written back, each followed by its newline. */
  function Join(ls: seq<seq<char>>): seq<char>
  {
    if |ls| == 0 then [] else ls[0] + ['\n'] + Join(ls[1..])
  }

  predicate NoNewline(s: seq<char>)
  {
    forall k :: 0 <= k < |s| ==> s[k] != '\n'
  }

  /** No line holds a newline. */
  lemma {:induction false} LinesNoNewline(file: seq<char>, pos: nat)
    requires pos <= |file|
    ensures forall i :: 0 <= i < |Lines(file, pos)| ==> NoNewline(Lines(file, pos)[i])
    decreases |file| - pos
  {
    if pos < |file| && NextNewline(file, pos).Some? {
      var j := NextNewline(file, pos).value;
      var ls := Lines(file, pos);
      var rest := Lines(file, j + 1);
      LinesNoNewline(file, j + 1);
      assert ls == [file[pos .. j]] + rest;
      forall i | 0 <= i < |ls|
        ensures NoNewline(ls[i])
      {
        if i > 0 {
          assert ls[i] == rest[i - 1];
        }
      }
    }
  }

  /**
   * Every file is its lines, each with its newline, followed by a tail
   * with no newline: one line per '\n', in file order, and nothing from
   * the tail.
   */
  lemma {:induction false} LinesSplit(file: seq<char>, pos: nat)
    requires pos <= |file|
    ensures pos + |Join(Lines(file, pos))| <= |file|
    ensures file[pos .. pos + |Join(Lines(file, pos))|] == Join(Lines(file, pos))
    ensures NoNewline(file[pos + |Join(Lines(file, pos))| ..])
    decreases |file| - pos
  {
    if pos < |file| && NextNewline(file, pos).Some? {
      var j := NextNewline(file, pos).value;
      LinesSplit(file, j + 1);
      LinesSplitStep(file, pos, j);
    } else {
      NoNewlineFrom(file, pos);
    }
  }

  /** The split from the line after the one at pos extends to the split from pos. */
  lemma LinesSplitStep(file: seq<char>, pos: nat, j: nat)
    requires pos < |file| && NextNewline(file, pos) == Some(j)
    requires j + 1 + |Join(Lines(file, j + 1))| <= |file|
    requires file[j + 1 .. j + 1 + |Join(Lines(file, j + 1))|] == Join(Lines(file, j + 1))
    requires NoNewline(file[j + 1 + |Join(Lines(file, j + 1))| ..])
    ensures pos + |Join(Lines(file, pos))| <= |file|
    ensures file[pos .. pos + |Join(Lines(file, pos))|] == Join(Lines(file, pos))
    ensures NoNewline(file[pos + |Join(Lines(file, pos))| ..])
  {
    var rest := Lines(file, j + 1);
    LinesStep(file, pos, j);
    JoinCons(file[pos .. j], rest);
    LineThenRest(file, pos, j, Join(rest), Join(Lines(file, pos)));
  }

  /** A line, its newline and what the lines after it join to lie next to each other in the file. */
  lemma LineThenRest(file: seq<char>, pos: nat, j: nat, joined: seq<char>, all: seq<char>)
    requires pos <= j < |file| && file[j] == '\n'
    requires j + 1 + |joined| <= |file| && file[j + 1 .. j + 1 + |joined|] == joined
    requires NoNewline(file[j + 1 + |joined| ..])
    requires all == file[pos .. j] + ['\n'] + joined
    ensures pos + |all| <= |file| && file[pos .. pos + |all|] == all
    ensures NoNewline(file[pos + |all| ..])
  {
    assert pos + |all| == j + 1 + |joined|;
    SliceAround(file, pos, j, j + 1 + |joined|);
  }

  /** With no newline from pos on, the rest of the file has none. */
  lemma NoNewlineFrom(file: seq<char>, pos: nat)
    requires pos <= |file|
    requires pos < |file| ==> NextNewline(file, pos).None?
    ensures Lines(file, pos) == []
    ensures NoNewline(file[pos ..])
  {
    if pos < |file| {
      forall k | 0 <= k < |file| - pos
        ensures file[pos ..][k] != '\n'
      {
        assert file[pos ..][k] == file[pos + k];
      }
    }
  }

  /** Joining a line in front of others writes it and its newline first. */
  lemma JoinCons(l: seq<char>, rest: seq<seq<char>>)
    ensures Join([l] + rest) == l + ['\n'] + Join(rest)
  {
    assert ([l] + rest)[1..] == rest;
  }

  lemma SliceAround(s: seq<char>, a: nat, j: nat, e: nat)
    requires a <= j < e <= |s|
    ensures s[a .. e] == s[a .. j] + [s[j]] + s[j + 1 .. e]
  {
  }

  /** Lines without newlines, joined and followed by a tail without newline, split back into themselves. */
  lemma {:induction false} LinesOfJoin(pre: seq<char>, ls: seq<seq<char>>, tail: seq<char>)
    requires forall i :: 0 <= i < |ls| ==> NoNewline(ls[i])
    requires NoNewline(tail)
    ensures Lines(pre + Join(ls) + tail, |pre|) == ls
    decreases |ls|
  {
    var file := pre + Join(ls) + tail;
    if |ls| == 0 {
      assert file[|pre| ..] == tail;
      if |pre| < |file| {
        assert NextNewline(file, |pre|).None?;
      }
    } else {
      var l := ls[0];
      var pre' := pre + l + ['\n'];
      assert Join(ls) == l + ['\n'] + Join(ls[1..]);
      assert file == pre' + Join(ls[1..]) + tail;
      assert file[|pre| .. |pre| + |l|] == l;
      assert file[|pre| + |l|] == '\n';
      SkipRun(file, |pre|, l, NonNewline);
      assert NextNewline(file, |pre|) == Some(|pre| + |l|);
      LinesOfJoin(pre', ls[1..], tail);
      LinesStep(file, |pre|, |pre| + |l|);
      assert |pre'| == |pre| + |l| + 1;
      assert ls == [l] + ls[1..];
    }
  }

  // ---------------------------------------------------------------------
  // The records and names of a whole index

  /** Every line of the index converts: what the readers rely on. */
  predicate Parsable(file: seq<char>)
  {
    forall i :: 0 <= i < |Lines(file, 0)| ==> LineScans(file, i)
  }

  /** Line i of the index converts to a record. */
  predicate LineScans(file: seq<char>, i: nat)
    requires i < |Lines(file, 0)|
  {
    Scan(Lines(file, 0)[i]).Some?
  }

  /** A parsable index, stated line by line. */
  lemma ParsableLines(file: seq<char>)
    requires Parsable(file)
    ensures forall i :: 0 <= i < |Lines(file, 0)| ==> Scan(Lines(file, 0)[i]).Some?
  {
    forall i | 0 <= i < |Lines(file, 0)|
      ensures Scan(Lines(file, 0)[i]).Some?
    {
      assert LineScans(file, i);
    }
  }

  function RecordsOf(ls: seq<seq<char>>): (rs: seq<FaiRecord>)
    requires forall i :: 0 <= i < |ls| ==> Scan(ls[i]).Some?
    ensures |rs| == |ls| && forall i :: 0 <= i < |ls| ==> rs[i] == Scan(ls[i]).value
  {
    seq(|ls|, i requires 0 <= i < |ls| => Scan(ls[i]).value)
  }

  /** The records of the index, one per line, in file order. */
  function Records(file: seq<char>): (rs: seq<FaiRecord>)
    requires Parsable(file)
    ensures |rs| == |Lines(file, 0)|
  {
    ParsableLines(file);
    RecordsOf(Lines(file, 0))
  }

  /** The names pushed for the lines: `elba_str_store_pushl` refuses an empty one. */
  function NamesOf(ls: seq<seq<char>>): seq<seq<char>>
  {
    if |ls| == 0 then []
    else
      var name := NameOf(ls[|ls| - 1]);
      NamesOf(ls[..|ls| - 1]) + (if |name| > 0 then [name] else [])
  }

  function Names(file: seq<char>): seq<seq<char>>
  {
    NamesOf(Lines(file, 0))
  }

  // ---------------------------------------------------------------------
  // The writer's side and the round trip

  /** One index entry as samtools writes it. */
  datatype FaiEntry = FaiEntry(name: seq<char>, record: FaiRecord, width: nat)

  /** A name samtools can write: non-empty, no white space, no NUL. */
  predicate GoodName(name: seq<char>)
  {
    |name| > 0 && forall k :: 0 <= k < |name| ==> !IsSpace(name[k]) && name[k] != '\0'
  }

  function Field(n: nat): seq<char>
  {
    ['\t'] + DecimalString(n)
  }

  /** NAME, LENGTH, OFFSET, LINEBASES and LINEWIDTH, tab-separated, without the newline. */
  function FaiLine(e: FaiEntry): seq<char>
  {
    e.name + (Field(e.record.len) + (Field(e.record.pos) + (Field(e.record.bases) + Field(e.width))))
  }

  function FaiText(es: seq<FaiEntry>): seq<char>
  {
    Join(FaiLines(es))
  }

  function FaiLines(es: seq<FaiEntry>): (ls: seq<seq<char>>)
    ensures |ls| == |es| && forall i :: 0 <= i < |es| ==> ls[i] == FaiLine(es[i])
  {
    seq(|es|, i requires 0 <= i < |es| => FaiLine(es[i]))
  }

  /** A field, read from where the previous one stopped, gives back its number. */
  lemma ScanField(s: seq<char>, pre: seq<char>, n: nat, rest: seq<char>)
    requires s == pre + (Field(n) + rest)
    requires |rest| == 0 || rest[0] == '\t'
    ensures ScanNumber(s, |pre|) == Some((n, |pre| + |Field(n)|))
  {
    var p, ds := |pre|, DecimalString(n);
    var tail := ['\t'] + ds + rest;
    assert s[p..] == tail;
    assert s[p + 1 .. p + 1 + |ds|] == tail[1 .. 1 + |ds|] == ds;
    assert p + 1 + |ds| < |s| ==> s[p + 1 + |ds|] == tail[1 + |ds|] == rest[0];
    ScanTabbedNumber(s, p, ds);
    DecimalRoundTrip(n);
  }

  /** A tab and then a run of digits that ends the text or meets a non-digit: `%zu` reads the run. */
  lemma ScanTabbedNumber(s: seq<char>, i: nat, ds: seq<char>)
    requires |ds| > 0 && AllDigits(ds) && i + 1 + |ds| <= |s|
    requires s[i] == '\t' && s[i + 1 .. i + 1 + |ds|] == ds
    requires i + 1 + |ds| == |s| || !IsDigit(s[i + 1 + |ds|])
    ensures ScanNumber(s, i) == Some((DecimalValue(ds), i + 1 + |ds|))
  {
    assert s[i + 1] == ds[0];
    TabSkipped(s, i);
    DigitsSkipped(s, i + 1, ds);
    ScanNumberAt(s, i, i + 1, i + 1 + |ds|);
  }

  /** One tab before a character that is not white space is skipped alone. */
  lemma TabSkipped(s: seq<char>, i: nat)
    requires i + 1 < |s| && s[i] == '\t' && !IsSpace(s[i + 1])
    ensures SkipWhile(s, i, Space) == i + 1
  {
  }

  /** A run of digits ended by the end of s or by a non-digit is skipped exactly. */
  lemma DigitsSkipped(s: seq<char>, t: nat, ds: seq<char>)
    requires AllDigits(ds) && t + |ds| <= |s| && s[t .. t + |ds|] == ds
    requires t + |ds| == |s| || !IsDigit(s[t + |ds|])
    ensures SkipWhile(s, t, DigitChar) == t + |ds|
  {
    assert forall k :: 0 <= k < |ds| ==> InClass(ds[k], DigitChar);
    SkipRun(s, t, ds, DigitChar);
  }

  /** The number `%u` reads when the white space ends at t and the digits at e. */
  lemma ScanNumberAt(s: seq<char>, i: nat, t: nat, e: nat)
    requires i <= t < e <= |s|
    requires SkipWhile(s, i, Space) == t && SkipWhile(s, t, DigitChar) == e
    ensures AllDigits(s[t .. e])
    ensures ScanNumber(s, i) == Some((DecimalValue(s[t .. e]), e))
  {
  }

  /** Tabs and digits only: the part of a line after its name. */
  predicate TabsAndDigits(t: seq<char>)
  {
    forall k :: 0 <= k < |t| ==> t[k] == '\t' || IsDigit(t[k])
  }

  /** The four numeric fields of a written line. */
  function FieldsOf(e: FaiEntry): (t: seq<char>)
    ensures FaiLine(e) == e.name + t
    ensures TabsAndDigits(t)
  {
    var f1, f2, f3, f4 := Field(e.record.len), Field(e.record.pos), Field(e.record.bases), Field(e.width);
    TabsAndDigitsField(e.record.len);
    TabsAndDigitsField(e.record.pos);
    TabsAndDigitsField(e.record.bases);
    TabsAndDigitsField(e.width);
    TabsAndDigitsAppend(f3, f4);
    TabsAndDigitsAppend(f2, f3 + f4);
    TabsAndDigitsAppend(f1, f2 + (f3 + f4));
    f1 + (f2 + (f3 + f4))
  }

  lemma TabsAndDigitsField(n: nat)
    ensures TabsAndDigits(Field(n))
  {
  }

  lemma TabsAndDigitsAppend(a: seq<char>, b: seq<char>)
    requires TabsAndDigits(a) && TabsAndDigits(b)
    ensures TabsAndDigits(a + b)
  {
  }

  /** A written line has neither NUL nor newline. */
  lemma FaiLineChars(e: FaiEntry)
    requires GoodName(e.name)
    ensures forall k :: 0 <= k < |FaiLine(e)| ==> FaiLine(e)[k] != '\0' && FaiLine(e)[k] != '\n'
  {
    var t := FieldsOf(e);
    var s := FaiLine(e);
    forall k | 0 <= k < |s|
      ensures s[k] != '\0' && s[k] != '\n'
    {
      if k >= |e.name| {
        assert s[k] == t[k - |e.name|];
      }
    }
  }

  /** The name of a written line is its entry's name. */
  lemma FaiLineName(e: FaiEntry)
    requires GoodName(e.name)
    ensures NameOf(FaiLine(e)) == e.name
  {
    var t := FieldsOf(e);
    var s := FaiLine(e);
    assert s[0 .. |e.name|] == e.name;
    assert |e.name| == |s| || s[|e.name|] == t[0];
    SkipRun(s, 0, e.name, NonSpace);
  }

  /** The numeric fields of a written line give back its record. */
  lemma ScanWrittenFields(e: FaiEntry)
    ensures |e.name| <= |FaiLine(e)|
    ensures ScanFields(FaiLine(e), |e.name|) == Some(e.record)
  {
    var s := FaiLine(e);
    var r := e.record;
    var f1, f2, f3, f4 := Field(r.len), Field(r.pos), Field(r.bases), Field(e.width);
    ScanField(s, e.name, r.len, f2 + (f3 + f4));
    var p2 := e.name + f1;
    assert s == p2 + (f2 + (f3 + f4));
    ScanField(s, p2, r.pos, f3 + f4);
    var p3 := p2 + f2;
    assert s == p3 + (f3 + f4);
    ScanField(s, p3, r.bases, f4);
  }

  /** Reading a written line gives back its record. */
  lemma ScanFaiLine(e: FaiEntry)
    requires GoodName(e.name)
    ensures Scan(FaiLine(e)) == Some(e.record)
  {
    var s := FaiLine(e);
    FaiLineChars(e);
    SkipRun(s, 0, s, NonNul);
    assert UpToNul(s) == s;
    assert s[0 .. 0] == [];
    SkipRun(s, 0, [], Space);
    FaiLineName(e);
    ScanWrittenFields(e);
  }

  /** The index samtools writes splits into its written lines. */
  lemma LinesOfFaiText(es: seq<FaiEntry>)
    requires forall i :: 0 <= i < |es| ==> GoodName(es[i].name)
    ensures Lines(FaiText(es), 0) == FaiLines(es)
  {
    var ls := FaiLines(es);
    forall i | 0 <= i < |ls|
      ensures NoNewline(ls[i])
    {
      FaiLineChars(es[i]);
    }
    var text := Join(ls);
    assert NoNewline([]);
    LinesOfJoin([], ls, []);
    assert [] + text + [] == text;
  }

  /** The records of the entries, in order. */
  function EntryRecords(es: seq<FaiEntry>): (rs: seq<FaiRecord>)
    ensures |rs| == |es| && forall i :: 0 <= i < |es| ==> rs[i] == es[i].record
  {
    seq(|es|, i requires 0 <= i < |es| => es[i].record)
  }

  /** Reading the index samtools writes gives back its records, one per entry, in order. */
  lemma ParseFaiText(es: seq<FaiEntry>)
    requires forall i :: 0 <= i < |es| ==> GoodName(es[i].name)
    ensures Parsable(FaiText(es))
    ensures Records(FaiText(es)) == EntryRecords(es)
  {
    LinesOfFaiText(es);
    var ls := FaiLines(es);
    forall i | 0 <= i < |ls|
      ensures Scan(ls[i]) == Some(es[i].record)
    {
      ScanFaiLine(es[i]);
    }
  }

  /** ... and its names, one per entry, in order. */
  lemma NamesOfFaiText(es: seq<FaiEntry>)
    requires forall i :: 0 <= i < |es| ==> GoodName(es[i].name)
    ensures Names(FaiText(es)) == EntryNames(es)
  {
    LinesOfFaiText(es);
    NamesOfFaiLines(es);
  }

  /** The names of the entries, in order. */
  function EntryNames(es: seq<FaiEntry>): (ns: seq<seq<char>>)
    ensures |ns| == |es| && forall i :: 0 <= i < |es| ==> ns[i] == es[i].name
  {
    seq(|es|, i requires 0 <= i < |es| => es[i].name)
  }

  /** The names pushed for written lines are the entries' names. */
  lemma {:induction false} NamesOfFaiLines(es: seq<FaiEntry>)
    requires forall i :: 0 <= i < |es| ==> GoodName(es[i].name)
    ensures NamesOf(FaiLines(es)) == EntryNames(es)
    decreases |es|
  {
    if |es| > 0 {
      var ls := FaiLines(es);
      var init := es[..|es| - 1];
      var last := es[|es| - 1];
      assert ls[..|ls| - 1] == FaiLines(init);
      NamesOfFaiLines(init);
      FaiLineName(last);
      assert NamesOf(ls) == NamesOf(FaiLines(init)) + [last.name];
      assert EntryNames(es) == EntryNames(init) + [last.name];
    }
  }
}
