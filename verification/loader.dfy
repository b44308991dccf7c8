/**
 * Loading the store from CSV text, one line at a time, and the normalised
 * course lookup of the planner's "print course" option. The file itself is
 * not modelled: the loader receives the lines the file would yield.
 */
module CourseLoader {
  import opened TextUtil
  import opened CourseStore

  /** A line that could not be turned into a course, by its 1-based line number. */
  datatype LoadError = FormatError(lineNo: nat)

  /** `LoadResult`: courses loaded, lines skipped as malformed, and the errors recorded. */
  datatype LoadResult = LoadResult(loaded: nat, skipped: nat, errors: seq<LoadError>)

  /** What one line contributes. */
  datatype LineOutcome = Blank | Malformed | Parsed(course: Course)

  // ---------------------------------------------------------------- one line

  /** The line without one trailing '\r' (left over from a Windows line ending). */
  function StripCR(line: string): (r: string)
    ensures line != [] && line[|line| - 1] == '\r' ==> line == r + ['\r']
    ensures !(line != [] && line[|line| - 1] == '\r') ==> r == line
  {
    if line != [] && line[|line| - 1] == '\r' then line[..|line| - 1] else line
  }

  /** The prerequisites taken from fields: each upper-cased, the empty ones dropped, in order. */
  function Prereqs(fields: seq<string>): (ps: seq<string>)
    ensures |ps| <= |fields|
    decreases |fields|
  {
    if fields == [] then []
    else
      var p := Upper(fields[|fields| - 1]);
      Prereqs(fields[..|fields| - 1]) + (if p == [] then [] else [p])
  }

  /** The course a line with at least two fields describes. */
  function MakeCourse(fields: seq<string>): (c: Course)
    requires |fields| >= 2
    ensures |c.number| == |fields[0]| && Upper(c.number) == c.number
    ensures |c.prerequisites| <= |fields| - 2
    ensures forall p :: p in c.prerequisites ==> p != []
  {
    UpperAt(fields[0]);
    UpperIdempotent(fields[0]);
    PrereqsNormal(fields[2..]);
    Course(Upper(fields[0]), fields[1], Prereqs(fields[2..]))
  }

  /** The ingestion rule for one line. */
  function ParseLine(line: string): (o: LineOutcome)
    ensures !o.Blank? ==> StripCR(line) != []
    ensures o.Parsed? ==> ',' in StripCR(line)
  {
    var l := StripCR(line);
    FieldsOfLine(l);
    if Trimmed(l) == [] then Blank
    else
      var fields := SplitFields(l);
      if |fields| < 2 then Malformed else Parsed(MakeCourse(fields))
  }

  /** Every line's outcome, in order. */
  function ParseAll(lines: seq<string>): (os: seq<LineOutcome>)
    ensures |os| == |lines|
  {
    seq(|lines|, i requires 0 <= i < |lines| => ParseLine(lines[i]))
  }

  /** The effect of the outcome of line number `lineNo` on the counters and the tree. */
  function StepLine(res: LoadResult, t: Tree, lineNo: nat, o: LineOutcome): (r: (LoadResult, Tree))
    ensures !o.Parsed? ==> r.1 == t
    ensures |r.0.errors| - r.0.skipped == |res.errors| - res.skipped
  {
    match o
    case Blank => (res, t)
    case Malformed => (res.(skipped := res.skipped + 1, errors := res.errors + [FormatError(lineNo)]), t)
    case Parsed(c) => (res.(loaded := res.loaded + 1), InsertRec(t, c))
  }

  /** Counters and tree after the outcomes of lines 1..|os|, from tree t and zero counters. */
  function Replay(t: Tree, os: seq<LineOutcome>): (r: (LoadResult, Tree))
    ensures |r.0.errors| == r.0.skipped
    decreases |os|
  {
    if os == [] then (LoadResult(0, 0, []), t)
    else
      var prev := Replay(t, os[..|os| - 1]);
      StepLine(prev.0, prev.1, |os|, os[|os| - 1])
  }

  /** Counters and tree after loading the given lines into tree t. */
  function Ingest(t: Tree, lines: seq<string>): (LoadResult, Tree) {
    Replay(t, ParseAll(lines))
  }

  /** How many outcomes are not blank lines. */
  function NonBlankCount(os: seq<LineOutcome>): nat
    decreases |os|
  {
    if os == [] then 0
    else NonBlankCount(os[..|os| - 1]) + (if os[|os| - 1].Blank? then 0 else 1)
  }

  /** The courses of the well-formed lines, in line order. */
  function ParsedCourses(os: seq<LineOutcome>): seq<Course>
    decreases |os|
  {
    if os == [] then []
    else ParsedCourses(os[..|os| - 1]) + (if os[|os| - 1].Parsed? then [os[|os| - 1].course] else [])
  }

  /** The catalog after upserting the courses in order: a later record for a number replaces an earlier one. */
  function Upserts(m: map<string, Course>, cs: seq<Course>): map<string, Course>
    decreases |cs|
  {
    if cs == [] then m
    else Upserts(m, cs[..|cs| - 1])[cs[|cs| - 1].number := cs[|cs| - 1]]
  }

  // ---------------------------------------------------------------- facts about one line

  /** A line is skipped as blank exactly when, after the '\r' is dropped, it is all whitespace. */
  lemma BlankIffWhitespace(line: string)
    ensures ParseLine(line).Blank? <==>
              forall k :: 0 <= k < |StripCR(line)| ==> IsSpace(StripCR(line)[k])
  {
    TrimmedEmptyIff(StripCR(line));
  }

  /**
   * A non-blank line is malformed exactly when it has no ',' at all, or its
   * only ',' is its last character (`getline` then yields a single field).
   */
  lemma MalformedIffFewCommas(line: string)
    ensures var l := StripCR(line);
      ParseLine(line).Malformed? <==>
        && Trimmed(l) != []
        && (multiset(l)[','] == 0 || (multiset(l)[','] == 1 && l[|l| - 1] == ','))
  {
    var l := StripCR(line);
    FieldsOfLine(l);
    if Trimmed(l) != [] {
      assert l != [];
    }
  }

  /** Every prerequisite recorded is non-empty and already upper case. */
  lemma {:induction false} PrereqsNormal(fields: seq<string>)
    ensures forall p :: p in Prereqs(fields) ==> p != [] && Upper(p) == p
    decreases |fields|
  {
    if fields != [] {
      PrereqsNormal(fields[..|fields| - 1]);
      UpperIdempotent(fields[|fields| - 1]);
    }
  }

  /** One prerequisite per non-empty field: only the empty fields are dropped. */
  lemma {:induction false} PrereqsLength(fields: seq<string>)
    ensures |Prereqs(fields)| == |fields| - multiset(fields)[""]
    ensures (forall f :: f in fields ==> f != []) ==> |Prereqs(fields)| == |fields|
    decreases |fields|
  {
    if fields != [] {
      var init, last := fields[..|fields| - 1], fields[|fields| - 1];
      PrereqsLength(init);
      UpperAt(last);
      assert fields == init + [last];
      assert multiset(fields)[""] == multiset(init)[""] + (if last == "" then 1 else 0);
      assert Upper(last) == [] <==> last == [];
    }
    if forall f :: f in fields ==> f != [] {
      assert "" !in fields;
    }
  }

  /** Prerequisites keep the order of their fields: the fields of two runs give the two runs' prerequisites in turn. */
  lemma {:induction false} PrereqsAppend(a: seq<string>, b: seq<string>)
    ensures Prereqs(a + b) == Prereqs(a) + Prereqs(b)
    decreases |b|
  {
    if b == [] {
      assert a + b == a;
    } else {
      var init, last := b[..|b| - 1], b[|b| - 1];
      PrereqsAppend(a, init);
      assert (a + b)[..|a + b| - 1] == a + init;
      assert (a + b)[|a + b| - 1] == last;
    }
  }

  /**
   * A well-formed line becomes a course whose number is its first field
   * trimmed and upper-cased, whose title is its second field trimmed, and
   * whose prerequisites are upper case and non-empty.
   */
  lemma ParsedCourseShape(line: string)
    requires ParseLine(line).Parsed?
    ensures var fs := Fields(StripCR(line));
      var c := ParseLine(line).course;
      && |fs| >= 2
      && c.number == Upper(Trimmed(fs[0]))
      && c.title == Trimmed(fs[1])
      && forall p :: p in c.prerequisites ==> p != [] && Upper(p) == p && ',' !in p
  {
    var l := StripCR(line);
    var fs := SplitFields(l);
    PrereqsNormal(fs[2..]);
    SplitFieldsClean(l);
    PrereqsFromFields(fs[2..]);
    forall p | p in ParseLine(line).course.prerequisites ensures ',' !in p {
      var f :| f in fs[2..] && p == Upper(f);
      assert f in fs;
      UpperAt(f);
    }
  }

  /** Each prerequisite is the upper-cased form of one of the fields. */
  lemma {:induction false} PrereqsFromFields(fields: seq<string>)
    ensures forall p :: p in Prereqs(fields) ==> exists f :: f in fields && p == Upper(f)
    decreases |fields|
  {
    if fields != [] {
      var init, last := fields[..|fields| - 1], fields[|fields| - 1];
      PrereqsFromFields(init);
      forall p | p in Prereqs(fields) ensures exists f :: f in fields && p == Upper(f) {
        if p in Prereqs(init) {
          var f :| f in init && p == Upper(f);
          assert f in fields;
        } else {
          assert last in fields && p == Upper(last);
        }
      }
    }
  }

  // ---------------------------------------------------------------- facts about a whole load

  /**
   * Every non-blank line is either loaded or skipped; one error is recorded
   * per skipped line, and each names a malformed line.
   */
  lemma {:induction false} ReplayCounts(t: Tree, os: seq<LineOutcome>)
    ensures var res := Replay(t, os).0;
      && res.loaded + res.skipped == NonBlankCount(os)
      && res.loaded == |ParsedCourses(os)|
      && |res.errors| == res.skipped
      && forall e :: e in res.errors ==> 1 <= e.lineNo <= |os| && os[e.lineNo - 1].Malformed?
    decreases |os|
  {
    if os != [] {
      var init := os[..|os| - 1];
      ReplayCounts(t, init);
      forall e | e in Replay(t, init).0.errors
        ensures 1 <= e.lineNo <= |os| && os[e.lineNo - 1].Malformed?
      {
        assert os[e.lineNo - 1] == init[e.lineNo - 1];
      }
    }
  }

  /** Loading keeps the tree ordered. */
  lemma {:induction false} ReplayOrdered(t: Tree, os: seq<LineOutcome>)
    requires Ordered(t)
    ensures Ordered(Replay(t, os).1)
    decreases |os|
  {
    if os != [] {
      ReplayOrdered(t, os[..|os| - 1]);
      var o := os[|os| - 1];
      if o.Parsed? {
        InsertOrdered(Replay(t, os[..|os| - 1]).1, o.course);
      }
    }
  }

  /** The catalog after loading is the old one with the parsed courses upserted in line order. */
  lemma {:induction false} ReplayContents(t: Tree, os: seq<LineOutcome>)
    requires Ordered(t)
    ensures Contents(Replay(t, os).1) == Upserts(Contents(t), ParsedCourses(os))
    decreases |os|
  {
    if os != [] {
      var init := os[..|os| - 1];
      ReplayContents(t, init);
      ReplayOrdered(t, init);
      var prev := Replay(t, init).1;
      var o := os[|os| - 1];
      if o.Parsed? {
        InsertContents(prev, o.course);
        var cs := ParsedCourses(os);
        assert cs == ParsedCourses(init) + [o.course];
        assert cs[..|cs| - 1] == ParsedCourses(init) && cs[|cs| - 1] == o.course;
        assert Replay(t, os).1 == InsertRec(prev, o.course);
        assert Upserts(Contents(t), cs) == Upserts(Contents(t), ParsedCourses(init))[o.course.number := o.course];
      } else {
        assert ParsedCourses(os) == ParsedCourses(init);
      }
    }
  }

  /** The keys after loading are the old keys plus the numbers of the parsed courses. */
  lemma {:induction false} ReplayKeys(t: Tree, os: seq<LineOutcome>)
    ensures Keys(Replay(t, os).1) == Keys(t) + set c | c in ParsedCourses(os) :: c.number
    decreases |os|
  {
    if os != [] {
      var init := os[..|os| - 1];
      ReplayKeys(t, init);
      var o := os[|os| - 1];
      if o.Parsed? {
        InsertKeys(Replay(t, init).1, o.course);
        assert ParsedCourses(os) == ParsedCourses(init) + [o.course];
      }
    }
  }

  /** Loading one more line is one `StepLine` on the state the earlier lines leave. */
  lemma IngestSnoc(t: Tree, lines: seq<string>, line: string)
    ensures var prev := Ingest(t, lines);
      Ingest(t, lines + [line]) == StepLine(prev.0, prev.1, |lines| + 1, ParseLine(line))
  {
    var os := ParseAll(lines + [line]);
    assert os[..|os| - 1] == ParseAll(lines);
    assert os[|os| - 1] == ParseLine(line);
  }

  /**
   * What one more line does: a blank line changes nothing; a line with fewer than two
   * fields adds one skip and one error naming it and leaves the tree alone; any other
   * line adds one load and upserts the course built from its fields.
   */
  lemma IngestOneMoreLine(t: Tree, lines: seq<string>, line: string)
    ensures var (r0, t0) := Ingest(t, lines);
      var (r1, t1) := Ingest(t, lines + [line]);
      var l := StripCR(line);
      && (Trimmed(l) == [] ==> r1 == r0 && t1 == t0)
      && (Trimmed(l) != [] && |SplitFields(l)| < 2 ==>
            && r1.loaded == r0.loaded && r1.skipped == r0.skipped + 1
            && r1.errors == r0.errors + [FormatError(|lines| + 1)] && t1 == t0)
      && (Trimmed(l) != [] && |SplitFields(l)| >= 2 ==>
            && r1.loaded == r0.loaded + 1 && r1.skipped == r0.skipped && r1.errors == r0.errors
            && t1 == InsertRec(t0, Course(Upper(SplitFields(l)[0]), SplitFields(l)[1], Prereqs(SplitFields(l)[2..]))))
  {
    IngestSnoc(t, lines, line);
    var l := StripCR(line);
    if Trimmed(l) == [] {
      assert ParseLine(line) == Blank;
    } else if |SplitFields(l)| < 2 {
      assert ParseLine(line) == Malformed;
    } else {
      var fs := SplitFields(l);
      assert ParseLine(line) == Parsed(Course(Upper(fs[0]), fs[1], Prereqs(fs[2..])));
    }
  }

  /**
   * Loading into an empty store leaves one node per distinct key, listed in full by the
   * in-order traversal; when the well-formed lines carry distinct numbers, that is one per line loaded.
   */
  lemma LoadedDistinct(lines: seq<string>)
    ensures var t' := Ingest(Leaf, lines).1;
      CountNodes(t') == |Keys(t')| == |InOrder(t')|
    ensures var cs := ParsedCourses(ParseAll(lines));
      (forall i, j :: 0 <= i < j < |cs| ==> cs[i].number != cs[j].number)
      ==> CountNodes(Ingest(Leaf, lines).1) == Ingest(Leaf, lines).0.loaded
  {
    var os := ParseAll(lines);
    var t' := Ingest(Leaf, lines).1;
    ReplayOrdered(Leaf, os);
    ReplayKeys(Leaf, os);
    CountDistinctKeys(t');
    ReplayCounts(Leaf, os);
    var cs := ParsedCourses(os);
    if forall i, j :: 0 <= i < j < |cs| ==> cs[i].number != cs[j].number {
      DistinctNumbers(cs);
    }
  }

  /** A list of courses with pairwise different numbers has as many numbers as courses. */
  lemma {:induction false} DistinctNumbers(cs: seq<Course>)
    requires forall i, j :: 0 <= i < j < |cs| ==> cs[i].number != cs[j].number
    ensures |set c | c in cs :: c.number| == |cs|
    decreases |cs|
  {
    if cs != [] {
      var init := cs[..|cs| - 1];
      DistinctNumbers(init);
      var last := cs[|cs| - 1];
      assert (set c | c in cs :: c.number) == (set c | c in init :: c.number) + {last.number};
      assert last.number !in (set c | c in init :: c.number);
    }
  }

  // ---------------------------------------------------------------- the loader

  /** The prerequisite loop of `loadCoursesFromCSV`: build the course from its fields. */
  method BuildCourse(fields: seq<string>) returns (c: Course)
    requires |fields| >= 2
    ensures c == MakeCourse(fields)
  {
    var number := ToUpper(fields[0]);
    var prerequisites: seq<string> := [];
    for i := 2 to |fields|
      invariant prerequisites == Prereqs(fields[2..i])
    {
      var p := ToUpper(fields[i]);
      if p != [] {
        prerequisites := prerequisites + [p];
      }
      assert fields[2..i + 1][..i - 2] == fields[2..i];
    }
    assert fields[2..|fields|] == fields[2..];
    c := Course(number, fields[1], prerequisites);
  }

  /** Loading line n of the input is one step on the state after line n - 1. */
  lemma LoadStep(t: Tree, lines: seq<string>, n: nat)
    requires 0 < n <= |lines|
    ensures var prev := Replay(t, ParseAll(lines)[..n - 1]);
      Replay(t, ParseAll(lines)[..n]) == StepLine(prev.0, prev.1, n, ParseLine(lines[n - 1]))
  {
    var os := ParseAll(lines)[..n];
    assert os[..n - 1] == ParseAll(lines)[..n - 1];
  }

  /** One pass of the loop body of `loadCoursesFromCSV`: line number lineNo, read as raw. */
  method LoadLine(raw: string, lineNo: nat, res0: LoadResult, bst: CourseBST) returns (res: LoadResult)
    requires bst.Valid()
    modifies bst
    ensures bst.Valid()
    ensures (res, bst.root) == StepLine(res0, old(bst.root), lineNo, ParseLine(raw))
  {
    res := res0;
    var line := raw;
    if line != [] && line[|line| - 1] == '\r' {
      line := line[..|line| - 1];
    }
    assert line == StripCR(raw);
    var trimmed := Trim(line);
    if trimmed == [] {
      assert ParseLine(raw) == Blank;
      return;
    }
    var fields := SplitCSV(line);
    if |fields| < 2 {
      assert ParseLine(raw) == Malformed;
      res := res.(skipped := res.skipped + 1, errors := res.errors + [FormatError(lineNo)]);
      return;
    }
    var c := BuildCourse(fields);
    assert ParseLine(raw) == Parsed(c);
    bst.Insert(c);
    res := res.(loaded := res.loaded + 1);
  }

  /** The line loop of `loadCoursesFromCSV`, over the lines the file yields. */
  method LoadLines(lines: seq<string>, bst: CourseBST) returns (res: LoadResult)
    requires bst.Valid()
    modifies bst
    ensures bst.Valid()
    ensures (res, bst.root) == Ingest(old(bst.root), lines)
  {
    res := LoadResult(0, 0, []);
    var lineNo := 0;
    while lineNo < |lines|
      invariant 0 <= lineNo <= |lines|
      invariant bst.Valid()
      invariant (res, bst.root) == Replay(old(bst.root), ParseAll(lines)[..lineNo])
    {
      var line := lines[lineNo];
      lineNo := lineNo + 1;
      LoadStep(old(bst.root), lines, lineNo);
      res := LoadLine(line, lineNo, res, bst);
    }
    assert ParseAll(lines)[..|lines|] == ParseAll(lines);
  }

  // ---------------------------------------------------------------- lookup by typed input

  /** A typed course number as the planner looks it up: trimmed, then upper-cased. */
  function NormalizeKey(input: string): (k: string)
    ensures IsTrimmed(k) && |k| <= |input|
  {
    UpperTrimmedCommute(input);
    TrimmedIsTrimmed(Upper(input));
    UpperAt(Trimmed(input));
    Upper(Trimmed(input))
  }

  /** Lookups ignore case and surrounding whitespace: any spelling normalises like its upper-case form. */
  lemma NormalizeKeyIgnoresCase(input: string)
    ensures NormalizeKey(Upper(input)) == NormalizeKey(input)
    ensures NormalizeKey(NormalizeKey(input)) == NormalizeKey(input)
  {
    UpperTrimmedCommute(input);
    UpperIdempotent(Trimmed(input));
    TrimmedIdempotent(input);
    UpperTrimmedCommute(Trimmed(input));
  }

  /** The number a well-formed line stores is the normalised form of its first piece, so typing that piece finds it. */
  lemma StoredNumberIsNormalized(line: string)
    requires ParseLine(line).Parsed?
    ensures ParseLine(line).course.number == NormalizeKey(Fields(StripCR(line))[0])
    ensures NormalizeKey(ParseLine(line).course.number) == ParseLine(line).course.number
  {
    var fs := Fields(StripCR(line));
    ParsedCourseShape(line);
    NormalizeKeyIgnoresCase(fs[0]);
  }

  /** Whitespace typed around the input does not change the key looked up. */
  lemma NormalizeKeyIgnoresPadding(w1: string, input: string, w2: string)
    requires AllSpace(w1) && AllSpace(w2)
    ensures NormalizeKey(w1 + input + w2) == NormalizeKey(input)
  {
    TrimmedIgnoresPadding(w1, input, w2);
  }

  /**
   * Typing a stored number in any mix of cases, with any whitespace around it,
   * normalises to exactly that number.
   */
  lemma TypedNumberMatchesStored(line: string, w1: string, typed: string, w2: string)
    requires ParseLine(line).Parsed?
    requires AllSpace(w1) && AllSpace(w2) && Upper(typed) == ParseLine(line).course.number
    ensures NormalizeKey(w1 + typed + w2) == ParseLine(line).course.number
  {
    var n := ParseLine(line).course.number;
    var f := Fields(StripCR(line))[0];
    NormalizeKeyIgnoresPadding(w1, typed, w2);
    UpperTrimmedCommute(typed);
    StoredNumberIsNormalized(line);
    UpperTrimmedCommute(f);
    TrimmedIdempotent(Upper(f));
  }

  datatype QueryOutcome = NoCourseEntered | NotFound | Found(course: Course)

  /** The lookup part of `handlePrintCourse`: normalise the input, refuse an empty one, then `find`. */
  method QueryCourse(bst: CourseBST, input: string) returns (r: QueryOutcome)
    requires bst.Valid()
    ensures r == NoCourseEntered <==> NormalizeKey(input) == []
    ensures r == NotFound <==> NormalizeKey(input) != [] && NormalizeKey(input) !in bst.Catalog()
    ensures r.Found? ==> r.course == bst.Catalog()[NormalizeKey(input)]
  {
    var trimmed := Trim(input);
    var key := ToUpper(trimmed);
    if key == [] {
      return NoCourseEntered;
    }
    var c := bst.Find(key);
    if c.None? {
      return NotFound;
    }
    return Found(c.value);
  }
}
