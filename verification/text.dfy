/**
 * Text helpers of the course planner: whitespace trimming, ASCII upper-casing
 * and splitting of one CSV line on ',' the way repeated
 * `getline(stream, field, ',')` does it.
 */
module TextUtil {

  /** ASCII whitespace as `isspace` sees it in the "C" locale: space, \t, \n, \v, \f, \r. */
  predicate IsSpace(c: char) {
    c == ' ' || '\t' <= c <= '\r'
  }

  // ---------------------------------------------------------------- trim

  /** First index at or after i that does not hold whitespace (|s| if none): where `start` stops. */
  function LeadEnd(s: string, i: nat): (r: nat)
    requires i <= |s|
    ensures i <= r <= |s|
    ensures forall k :: i <= k < r ==> IsSpace(s[k])
    ensures r < |s| ==> !IsSpace(s[r])
    decreases |s| - i
  {
    if i < |s| && IsSpace(s[i]) then LeadEnd(s, i + 1) else i
  }

  /** Going down from j, the end of the last non-whitespace character above lo: where `end` stops. */
  function TrailEnd(s: string, lo: nat, j: nat): (r: nat)
    requires lo <= j <= |s|
    ensures lo <= r <= j
    ensures forall k :: r <= k < j ==> IsSpace(s[k])
    ensures r > lo ==> !IsSpace(s[r - 1])
    decreases j
  {
    if j > lo && IsSpace(s[j - 1]) then TrailEnd(s, lo, j - 1) else j
  }

  /** The string without its leading and trailing whitespace. */
  function Trimmed(s: string): string {
    var i := LeadEnd(s, 0);
    s[i..TrailEnd(s, i, |s|)]
  }

  /** No whitespace at either end. */
  predicate IsTrimmed(s: string) {
    s == [] || (!IsSpace(s[0]) && !IsSpace(s[|s| - 1]))
  }

  /**
   * The trimmed string is a contiguous piece of the input, and what was cut
   * off on either side is whitespace only.
   */
  lemma TrimmedIsInfix(s: string)
    ensures exists i, j ::
              && 0 <= i <= j <= |s| && Trimmed(s) == s[i..j]
              && (forall k :: 0 <= k < i ==> IsSpace(s[k]))
              && (forall k :: j <= k < |s| ==> IsSpace(s[k]))
  {
    var i := LeadEnd(s, 0);
    var j := TrailEnd(s, i, |s|);
    assert Trimmed(s) == s[i..j];
  }

  /** The result of trimming never starts or ends with whitespace. */
  lemma TrimmedIsTrimmed(s: string)
    ensures IsTrimmed(Trimmed(s))
  {
    var i := LeadEnd(s, 0);
    var j := TrailEnd(s, i, |s|);
    if i < j {
      assert Trimmed(s)[0] == s[i];
      assert Trimmed(s)[j - i - 1] == s[j - 1];
    }
  }

  /** A string with no whitespace at either end is left unchanged. */
  lemma TrimmedFixesTrimmed(s: string)
    requires IsTrimmed(s)
    ensures Trimmed(s) == s
  {
    assert LeadEnd(s, 0) == 0;
    if s != [] {
      assert TrailEnd(s, 0, |s|) == |s|;
    }
  }

  /** Trimming twice is trimming once. */
  lemma TrimmedIdempotent(s: string)
    ensures Trimmed(Trimmed(s)) == Trimmed(s)
  {
    TrimmedIsTrimmed(s);
    TrimmedFixesTrimmed(Trimmed(s));
  }

  /** A line trims to nothing exactly when it is all whitespace. */
  lemma TrimmedEmptyIff(s: string)
    ensures Trimmed(s) == [] <==> forall k :: 0 <= k < |s| ==> IsSpace(s[k])
  {
    var i := LeadEnd(s, 0);
    var j := TrailEnd(s, i, |s|);
    if Trimmed(s) != [] {
      assert !IsSpace(s[i]);
    }
  }

  /** Nothing but whitespace. */
  predicate AllSpace(s: string) {
    forall k :: 0 <= k < |s| ==> IsSpace(s[k])
  }

  /** Whitespace around a string with none at its ends is exactly what trimming removes. */
  lemma TrimmedUnique(s: string, u: string, m: string, v: string)
    requires s == u + m + v
    requires AllSpace(u) && IsTrimmed(m) && AllSpace(v)
    ensures Trimmed(s) == m
  {
    if m == [] {
      assert forall k :: 0 <= k < |s| ==> IsSpace(s[k]) by {
        assert s == u + v;
      }
      TrimmedEmptyIff(s);
    } else {
      assert s[..|u|] == u;
      assert s[|u|] == m[0];
      assert LeadEnd(s, 0) == |u|;
      assert s[|u| + |m|..] == v;
      assert s[|u| + |m| - 1] == m[|m| - 1];
      assert TrailEnd(s, |u|, |s|) == |u| + |m|;
      assert s[|u|..|u| + |m|] == m;
    }
  }

  /** The input is its trimmed form with whitespace before and after. */
  lemma TrimmedParts(x: string) returns (a: string, b: string)
    ensures AllSpace(a) && AllSpace(b) && x == a + Trimmed(x) + b
  {
    var i := LeadEnd(x, 0);
    var j := TrailEnd(x, i, |x|);
    a, b := x[..i], x[j..];
    assert x == a + x[i..j] + b;
  }

  /** Two stretches of whitespace make one. */
  lemma AllSpaceConcat(a: string, b: string)
    requires AllSpace(a) && AllSpace(b)
    ensures AllSpace(a + b)
  {
  }

  /** Trimming ignores whitespace added on either side. */
  lemma TrimmedIgnoresPadding(w1: string, x: string, w2: string)
    requires AllSpace(w1) && AllSpace(w2)
    ensures Trimmed(w1 + x + w2) == Trimmed(x)
  {
    var a, b := TrimmedParts(x);
    var m := Trimmed(x);
    AllSpaceConcat(w1, a);
    AllSpaceConcat(b, w2);
    TrimmedIsTrimmed(x);
    assert w1 + x + w2 == (w1 + a) + m + (b + w2);
    TrimmedUnique(w1 + x + w2, w1 + a, m, b + w2);
  }

  /** `trim`: advance `start` over leading whitespace, then pull `end` back over trailing whitespace. */
  method Trim(s: string) returns (r: string)
    ensures r == Trimmed(s)
  {
    var start := 0;
    while start < |s| && IsSpace(s[start])
      invariant 0 <= start <= |s|
      invariant LeadEnd(s, start) == LeadEnd(s, 0)
    {
      start := start + 1;
    }
    var end := |s|;
    while end > start && IsSpace(s[end - 1])
      invariant start <= end <= |s|
      invariant TrailEnd(s, start, end) == TrailEnd(s, start, |s|)
    {
      end := end - 1;
    }
    r := s[start..end];
  }

  // ---------------------------------------------------------------- toUpper

  /** `toupper` in the "C" locale: 'a'..'z' become 'A'..'Z', everything else is kept. */
  function UpperChar(c: char): (u: char)
    ensures 'a' <= c <= 'z' ==> 'A' <= u <= 'Z' && u as int - 'A' as int == c as int - 'a' as int
    ensures !('a' <= c <= 'z') ==> u == c
  {
    if 'a' <= c <= 'z' then (c as int - 'a' as int + 'A' as int) as char else c
  }

  /** The string with every character upper-cased. */
  function Upper(s: string): string
    decreases |s|
  {
    if s == [] then [] else [UpperChar(s[0])] + Upper(s[1..])
  }

  /** Upper-casing keeps the length and maps each character on its own. */
  lemma {:induction false} UpperAt(s: string)
    ensures |Upper(s)| == |s|
    ensures forall i :: 0 <= i < |s| ==> Upper(s)[i] == UpperChar(s[i])
    decreases |s|
  {
    if s != [] {
      UpperAt(s[1..]);
      forall i | 1 <= i < |s| ensures Upper(s)[i] == UpperChar(s[i]) {
        assert Upper(s)[i] == Upper(s[1..])[i - 1];
      }
    }
  }

  /** Upper-casing twice is upper-casing once. */
  lemma {:induction false} UpperIdempotent(s: string)
    ensures Upper(Upper(s)) == Upper(s)
    decreases |s|
  {
    if s != [] {
      var u := Upper(s);
      assert u[1..] == Upper(s[1..]);
      UpperIdempotent(s[1..]);
    }
  }

  /** Upper-casing does not change where `trim` stops scanning from the left. */
  lemma {:induction false} LeadEndUpper(s: string, i: nat)
    requires i <= |s|
    ensures |Upper(s)| == |s| && LeadEnd(Upper(s), i) == LeadEnd(s, i)
    decreases |s| - i
  {
    UpperAt(s);
    if i < |s| && IsSpace(s[i]) {
      LeadEndUpper(s, i + 1);
    }
  }

  /** Upper-casing does not change where `trim` stops scanning from the right. */
  lemma {:induction false} TrailEndUpper(s: string, lo: nat, j: nat)
    requires lo <= j <= |s|
    ensures |Upper(s)| == |s| && TrailEnd(Upper(s), lo, j) == TrailEnd(s, lo, j)
    decreases j
  {
    UpperAt(s);
    if j > lo && IsSpace(s[j - 1]) {
      TrailEndUpper(s, lo, j - 1);
    }
  }

  /** Upper-casing neither creates nor removes whitespace, so it commutes with trimming. */
  lemma UpperTrimmedCommute(s: string)
    ensures Trimmed(Upper(s)) == Upper(Trimmed(s))
  {
    var i := LeadEnd(s, 0);
    LeadEndUpper(s, 0);
    var j := TrailEnd(s, i, |s|);
    TrailEndUpper(s, i, |s|);
    UpperAt(s);
    UpperAt(s[i..j]);
    assert Upper(s)[i..j] == Upper(s[i..j]);
  }

  /** `toUpper`: overwrite every character of the (copied) string with its upper-case form. */
  method ToUpper(s: string) returns (r: string)
    ensures r == Upper(s)
  {
    r := s;
    var i := 0;
    while i < |r|
      invariant 0 <= i <= |r| == |s|
      invariant forall k :: 0 <= k < i ==> r[k] == UpperChar(s[k])
      invariant forall k :: i <= k < |r| ==> r[k] == s[k]
    {
      r := r[i := UpperChar(r[i])];
      i := i + 1;
    }
    UpperAt(s);
  }

  // ---------------------------------------------------------------- splitCSV

  /** Index of the first ',' at or after `from`, or |s| when there is none. */
  function NextComma(s: string, from: nat): (i: nat)
    requires from <= |s|
    ensures from <= i <= |s|
    ensures forall k :: from <= k < i ==> s[k] != ','
    ensures i < |s| ==> s[i] == ','
    decreases |s| - from
  {
    if from == |s| || s[from] == ',' then from else NextComma(s, from + 1)
  }

  /** The comma-separated pieces of s[from..], empty ones included. */
  function PiecesFrom(s: string, from: nat): (ps: seq<string>)
    requires from <= |s|
    ensures |ps| >= 1
    decreases |s| - from
  {
    var i := NextComma(s, from);
    if i == |s| then [s[from..]] else [s[from..i]] + PiecesFrom(s, i + 1)
  }

  /** All comma-separated pieces of s: k commas give k + 1 pieces. */
  function Pieces(s: string): seq<string> {
    PiecesFrom(s, 0)
  }

  /** The pieces joined back with ','. */
  function Join(ps: seq<string>): string
    requires |ps| >= 1
  {
    if |ps| == 1 then ps[0] else ps[0] + [','] + Join(ps[1..])
  }

  /**
   * The pieces repeated `getline(ss, field, ',')` yields: all pieces in order,
   * except that a final piece that is empty is not produced.
   */
  function Fields(line: string): (fs: seq<string>)
    ensures fs == [] <==> line == []
  {
    var ps := Pieces(line);
    LastPieceEmpty(line, 0);
    PiecesCount(line, 0);
    assert line != [] && line[|line| - 1] == ',' ==> multiset(line[0..])[','] > 0 by {
      assert line[0..] == line;
      if line != [] && line[|line| - 1] == ',' {
        assert line[|line| - 1] in multiset(line);
      }
    }
    if ps[|ps| - 1] == [] then ps[..|ps| - 1] else ps
  }

  /** Every piece trimmed. */
  function TrimAll(ps: seq<string>): seq<string> {
    seq(|ps|, i requires 0 <= i < |ps| => Trimmed(ps[i]))
  }

  /** The fields `splitCSV` returns for a line. */
  function SplitFields(line: string): seq<string> {
    TrimAll(Fields(line))
  }

  /** Joining the pieces with ',' gives back the text they were cut from. */
  lemma {:induction false} JoinPieces(s: string, from: nat)
    requires from <= |s|
    ensures Join(PiecesFrom(s, from)) == s[from..]
    decreases |s| - from
  {
    var i := NextComma(s, from);
    if i < |s| {
      JoinPieces(s, i + 1);
      assert s[from..] == s[from..i] + [','] + s[i + 1..];
    }
  }

  /** No piece contains a ','. */
  lemma {:induction false} PiecesCommaFree(s: string, from: nat)
    requires from <= |s|
    ensures forall p :: p in PiecesFrom(s, from) ==> ',' !in p
    decreases |s| - from
  {
    var i := NextComma(s, from);
    if i < |s| {
      PiecesCommaFree(s, i + 1);
    }
  }

  /** Text with k commas has k + 1 pieces. */
  lemma {:induction false} PiecesCount(s: string, from: nat)
    requires from <= |s|
    ensures |PiecesFrom(s, from)| == multiset(s[from..])[','] + 1
    decreases |s| - from
  {
    var i := NextComma(s, from);
    if i < |s| {
      PiecesCount(s, i + 1);
      CommaCountStep(s, from, i);
    } else {
      assert ',' !in s[from..];
    }
  }

  /** Cutting text at its first ',' leaves one comma fewer in the rest. */
  lemma CommaCountStep(s: string, from: nat, i: nat)
    requires from <= i < |s| && s[i] == ','
    requires forall k :: from <= k < i ==> s[k] != ','
    ensures multiset(s[from..])[','] == multiset(s[i + 1..])[','] + 1
  {
    var head, tail := s[from..i], s[i + 1..];
    assert s[from..] == head + [','] + tail;
    assert ',' !in head;
  }

  /** The last piece is empty exactly when the text is empty or ends with ','. */
  lemma {:induction false} LastPieceEmpty(s: string, from: nat)
    requires from <= |s|
    ensures var ps := PiecesFrom(s, from);
      ps[|ps| - 1] == [] <==> (from == |s| || s[|s| - 1] == ',')
    decreases |s| - from
  {
    var i := NextComma(s, from);
    if i < |s| {
      LastPieceEmpty(s, i + 1);
    }
  }

  /**
   * `getline` gives the pieces except a dropped empty final one: with k commas
   * the line yields k fields when it is empty or ends with ',', and k + 1 otherwise.
   */
  lemma FieldsOfLine(line: string)
    ensures var dropped := line == [] || line[|line| - 1] == ',';
      && Pieces(line) == Fields(line) + (if dropped then [[]] else [])
      && |Fields(line)| == multiset(line)[','] + (if dropped then 0 else 1)
  {
    LastPieceEmpty(line, 0);
    PiecesCount(line, 0);
    assert line[0..] == line;
  }

  /** Every field `splitCSV` returns is trimmed and holds no ','. */
  lemma SplitFieldsClean(line: string)
    ensures forall f :: f in SplitFields(line) ==> Trimmed(f) == f && ',' !in f
  {
    var ps := Fields(line);
    PiecesCommaFree(line, 0);
    forall i | 0 <= i < |ps| ensures Trimmed(Trimmed(ps[i])) == Trimmed(ps[i]) && ',' !in Trimmed(ps[i]) {
      assert ps[i] in Pieces(line);
      TrimmedIdempotent(ps[i]);
      TrimmedKeepsChars(ps[i]);
    }
  }

  /** Trimming only removes characters: everything in the result was in the input. */
  lemma TrimmedKeepsChars(s: string)
    ensures forall c :: c in Trimmed(s) ==> c in s
  {
    var i := LeadEnd(s, 0);
    var j := TrailEnd(s, i, |s|);
    forall c | c in s[i..j] ensures c in s {
      var k :| 0 <= k < j - i && s[i..j][k] == c;
      assert s[i + k] == c;
    }
  }

  /**
   * The getline loop's progress: `raw` holds the pieces read before `pos`;
   * once `pos` reaches the end of the line they are exactly its fields.
   */
  ghost predicate ReadUpTo(line: string, pos: nat, raw: seq<string>) {
    && pos <= |line|
    && (pos < |line| ==> Pieces(line) == raw + PiecesFrom(line, pos))
    && (pos == |line| ==> Fields(line) == raw)
  }

  /** One `getline` call at `pos` takes the next piece and moves past its ','. */
  lemma PiecesStep(line: string, pos: nat, raw: seq<string>)
    requires pos < |line| && ReadUpTo(line, pos, raw)
    ensures var j := NextComma(line, pos);
      ReadUpTo(line, if j < |line| then j + 1 else j, raw + [line[pos..j]])
  {
    var j := NextComma(line, pos);
    var raw' := raw + [line[pos..j]];
    if j < |line| {
      assert PiecesFrom(line, pos) == [line[pos..j]] + PiecesFrom(line, j + 1);
      if j + 1 == |line| {
        assert NextComma(line, j + 1) == |line|;
        assert line[j + 1..] == [];
        assert Pieces(line) == raw' + [[]];
      }
    } else {
      assert j == |line|;
      assert PiecesFrom(line, pos) == [line[pos..]];
      assert line[pos..] == line[pos..j];
      assert Pieces(line) == raw';
    }
  }

  /** Trimming a list with one more piece adds that piece trimmed. */
  lemma TrimAllAppend(ps: seq<string>, p: string)
    ensures TrimAll(ps + [p]) == TrimAll(ps) + [Trimmed(p)]
  {
  }

  /** `splitCSV`: read ','-terminated fields until `getline` fails, trimming each. */
  method SplitCSV(line: string) returns (fields: seq<string>)
    ensures fields == SplitFields(line)
  {
    fields := [];
    ghost var raw: seq<string> := [];
    var pos := 0;
    while pos < |line|
      invariant ReadUpTo(line, pos, raw)
      invariant fields == TrimAll(raw)
      decreases |line| - pos
    {
      // one getline call: extract up to the next ',' or the end of the line
      var j := pos;
      while j < |line| && line[j] != ','
        invariant pos <= j <= |line|
        invariant forall k :: pos <= k < j ==> line[k] != ','
      {
        j := j + 1;
      }
      assert j == NextComma(line, pos);
      var field := line[pos..j];
      var t := Trim(field);
      PiecesStep(line, pos, raw);
      TrimAllAppend(raw, field);
      pos := if j < |line| then j + 1 else j;
      raw := raw + [field];
      fields := fields + [t];
    }
  }
}
