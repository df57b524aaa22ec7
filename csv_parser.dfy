/** `csv_parser` over the lines of a file: comments are cut at '#', lines
    left empty are skipped, and each other line becomes a row whose columns
    are read with successive `std::getline(strm, cell, delim)` calls. A
    cell is kept as its text; `csv_cell_formatter<bool>` classifies a bool
    cell. */
module CsvParsing {
  import opened Wrappers
  import opened Strings

  /** The position of the first c in s, or |s| (`npos`) when there is none. */
  function FindFirst(s: string, c: char): (r: nat)
    ensures r <= |s|
    ensures r < |s| ==> s[r] == c
    ensures c !in s[..r]
  {
    if s == [] then 0
    else if s[0] == c then 0
    else
      var k := FindFirst(s[1..], c);
      assert s[..1 + k] == [s[0]] + s[1..][..k];
      1 + k
  }

  /** `line.substr(0, line.find_first_of('#'))`, or the whole line when it
      holds no '#': what is left holds no '#', and is the text before the
      first one. */
  function StripComment(line: string): (r: string)
    ensures '#' !in r
    ensures r <= line
    ensures '#' in line ==> |r| < |line| && line[|r|] == '#'
    ensures '#' !in line ==> r == line
  {
    var pos := FindFirst(line, '#');
    if pos < |line| then line[..pos] else line
  }

  /** One `std::getline(strm, cell, delim)` on the text `s` from offset pos:
      fails at the end of the text; otherwise yields the characters up to
      the next delimiter (or the end), and moves past the delimiter. */
  function Getline(s: string, pos: nat, delim: char): (r: Option<(string, nat)>)
    requires pos <= |s|
    ensures r.None? <==> pos == |s|
    ensures r.Some? ==> pos < r.value.1 <= |s| && delim !in r.value.0
    ensures r.Some? ==> pos + |r.value.0| <= |s| && r.value.0 == s[pos..pos + |r.value.0|]
    ensures r.Some? ==> (pos + |r.value.0| < |s| ==> s[pos + |r.value.0|] == delim && r.value.1 == pos + |r.value.0| + 1)
    ensures r.Some? ==> (pos + |r.value.0| == |s| ==> r.value.1 == |s|)
  {
    if pos == |s| then None
    else
      var rest := s[pos..];
      var k := FindFirst(rest, delim);
      if k < |rest| then Some((rest[..k], pos + k + 1)) else Some((rest, |s|))
  }

  /** `read_elements`: n successive `read_element` calls on one stream. A
      call whose getline fails leaves its column at its value-initialised
      default, shown as None. */
  function ReadElements(s: string, pos: nat, delim: char, n: nat): (r: seq<Option<string>>)
    requires pos <= |s|
    ensures |r| == n
    decreases n
  {
    if n == 0 then []
    else match Getline(s, pos, delim)
      case None => [None] + ReadElements(s, pos, delim, n - 1)
      case Some((cell, next)) => [Some(cell)] + ReadElements(s, next, delim, n - 1)
  }

  /** The reference splitting: the pieces of s between delimiters, one more
      than there are delimiters. */
  function Split(s: string, delim: char): (r: seq<string>)
    ensures |r| >= 1
    decreases |s|
  {
    var k := FindFirst(s, delim);
    if k == |s| then [s] else [s[..k]] + Split(s[k + 1..], delim)
  }

  /** No piece holds the delimiter. */
  lemma {:induction false} SplitPiecesNoDelim(s: string, delim: char)
    ensures forall i :: 0 <= i < |Split(s, delim)| ==> delim !in Split(s, delim)[i]
    decreases |s|
  {
    var k := FindFirst(s, delim);
    if k < |s| {
      SplitStep(s, delim);
      SplitPiecesNoDelim(s[k + 1..], delim);
    } else {
      assert s[..k] == s;
    }
  }

  /** Joining pieces with the delimiter. */
  function Join(pieces: seq<string>, delim: char): string
    requires |pieces| >= 1
  {
    if |pieces| == 1 then pieces[0] else pieces[0] + [delim] + Join(pieces[1..], delim)
  }

  /** Splitting and joining are inverse: the pieces are exactly the text
      between delimiters. */
  lemma {:induction false} JoinSplit(s: string, delim: char)
    ensures Join(Split(s, delim), delim) == s
    decreases |s|
  {
    var k := FindFirst(s, delim);
    if k < |s| {
      var t := s[k + 1..];
      SplitStep(s, delim);
      JoinCons(s[..k], Split(t, delim), delim);
      JoinSplit(t, delim);
      PieceDelimRest(s, k, delim);
    }
  }

  /** One unfolding of Split at the first delimiter. */
  lemma SplitStep(s: string, delim: char)
    requires FindFirst(s, delim) < |s|
    ensures var k := FindFirst(s, delim);
      Split(s, delim) == [s[..k]] + Split(s[k + 1..], delim)
  {
  }

  /** One unfolding of Join at the first piece. */
  lemma JoinCons(p: string, rest: seq<string>, delim: char)
    requires |rest| >= 1
    ensures Join([p] + rest, delim) == p + [delim] + Join(rest, delim)
  {
    assert ([p] + rest)[1..] == rest;
  }

  lemma PieceDelimRest(s: string, k: nat, delim: char)
    requires k < |s| && s[k] == delim
    ensures s[..k] + [delim] + s[k + 1..] == s
  {
  }

  /** The cells successive getlines yield from offset pos until one fails. */
  function GetlineCells(s: string, pos: nat, delim: char): seq<string>
    requires pos <= |s|
    decreases |s| - pos
  {
    match Getline(s, pos, delim)
    case None => []
    case Some((cell, next)) => [cell] + GetlineCells(s, next, delim)
  }

  /** The empty piece Split yields after the last delimiter, and for an
      empty text, where getline yields no cell. */
  function TrailingPiece(s: string, delim: char): seq<string>
  {
    if s == [] || s[|s| - 1] == delim then [[]] else []
  }

  /** getline yields the split pieces, except that it yields nothing for an
      empty text and no empty piece after a final delimiter. */
  lemma {:induction false} GetlineCellsSplit(s: string, delim: char)
    ensures Split(s, delim) == GetlineCells(s, 0, delim) + TrailingPiece(s, delim)
    decreases |s|
  {
    var k := FindFirst(s, delim);
    if s == [] {
      assert Split(s, delim) == [[]];
    } else if k < |s| {
      GetlineCellsSplit(s[k + 1..], delim);
      SplitAtDelim(s, delim);
    } else {
      SplitNoDelim(s, delim);
    }
  }

  /** The induction step: a delimiter at k splits off the cell before it. */
  lemma SplitAtDelim(s: string, delim: char)
    requires FindFirst(s, delim) < |s|
    requires var t := s[FindFirst(s, delim) + 1..];
      Split(t, delim) == GetlineCells(t, 0, delim) + TrailingPiece(t, delim)
    ensures Split(s, delim) == GetlineCells(s, 0, delim) + TrailingPiece(s, delim)
  {
    var k := FindFirst(s, delim);
    var t := s[k + 1..];
    var x := s[..k];
    var split, cells, trailing := Split(s, delim), GetlineCells(s, 0, delim), TrailingPiece(s, delim);
    var splitT, cellsT, trailingT := Split(t, delim), GetlineCells(t, 0, delim), TrailingPiece(t, delim);
    assert cells == [x] + cellsT by {
      GetlineCellsShift(s, delim);
    }
    assert split == [x] + splitT by {
      SplitStep(s, delim);
    }
    assert trailing == trailingT by {
      LastOfSuffix(s, k + 1);
    }
    ConsAppend(x, cellsT, trailingT);
  }

  /** Without a delimiter the whole text is one cell and one piece. */
  lemma SplitNoDelim(s: string, delim: char)
    requires s != [] && FindFirst(s, delim) == |s|
    ensures Split(s, delim) == GetlineCells(s, 0, delim) + TrailingPiece(s, delim)
  {
    GetlineCellsShift(s, delim);
    assert s[..|s|] == s;
    assert s[|s| - 1] != delim;
  }

  lemma ConsAppend<T>(x: T, a: seq<T>, b: seq<T>)
    ensures [x] + (a + b) == ([x] + a) + b
  {
  }

  lemma LastOfSuffix<T>(s: seq<T>, j: nat)
    requires j <= |s|
    ensures j < |s| ==> s[j..][|s| - j - 1] == s[|s| - 1]
    ensures j == |s| ==> s[j..] == []
  {
  }

  /** Reading from offset k + 1 of s is reading the rest of s from 0. */
  lemma GetlineCellsShift(s: string, delim: char)
    requires s != []
    ensures var k := FindFirst(s, delim);
      GetlineCells(s, 0, delim) ==
        if k < |s| then [s[..k]] + GetlineCells(s[k + 1..], 0, delim) else [s]
  {
    var k := FindFirst(s, delim);
    if k < |s| {
      GetlineCellsSuffix(s, k + 1, delim);
    }
  }

  lemma {:induction false} GetlineCellsSuffix(s: string, pos: nat, delim: char)
    requires pos <= |s|
    ensures GetlineCells(s, pos, delim) == GetlineCells(s[pos..], 0, delim)
    decreases |s| - pos
  {
    var g := Getline(s, pos, delim);
    var h := Getline(s[pos..], 0, delim);
    if pos < |s| {
      assert s[pos..][0..] == s[pos..];
      assert g.value.0 == h.value.0;
      assert g.value.1 == pos + h.value.1;
      GetlineCellsSuffix(s, g.value.1, delim);
      GetlineCellsSuffix(s[pos..], h.value.1, delim);
      assert s[pos..][h.value.1..] == s[g.value.1..];
    }
  }

  /** The columns of a row: the cells getline yields, in order, one per
      column; columns beyond them keep their default (None), and cells beyond
      the last column are not read. */
  lemma {:induction false} ReadElementsCells(s: string, pos: nat, delim: char, n: nat)
    requires pos <= |s|
    ensures var cells := GetlineCells(s, pos, delim);
      forall i :: 0 <= i < n ==>
        ReadElements(s, pos, delim, n)[i] == if i < |cells| then Some(cells[i]) else None
    decreases n
  {
    if n > 0 {
      match Getline(s, pos, delim)
      case None =>
        ReadElementsCells(s, pos, delim, n - 1);
      case Some((cell, next)) =>
        ReadElementsCells(s, next, delim, n - 1);
    }
  }

  /** `csv_row(trimmedLine, delim)`: the columns of one line. */
  function Row(line: string, delim: char, columns: nat): (r: seq<Option<string>>)
    ensures |r| == columns
  {
    ReadElements(line, 0, delim, columns)
  }

  /** The lines that yield rows, in file order: each with its comment
      removed, and those left empty dropped. */
  function Kept(lines: seq<string>): (r: seq<string>)
    ensures |r| <= |lines|
    ensures forall i :: 0 <= i < |r| ==> r[i] != [] && '#' !in r[i]
  {
    if lines == [] then []
    else
      var line := StripComment(lines[|lines| - 1]);
      Kept(lines[..|lines| - 1]) + (if line == [] then [] else [line])
  }

  /** A file of blank and comment-only lines yields no row. */
  lemma {:induction false} KeptEmpty(lines: seq<string>)
    ensures Kept(lines) == [] <==> forall i :: 0 <= i < |lines| ==> StripComment(lines[i]) == []
  {
    if lines != [] {
      var init := lines[..|lines| - 1];
      var line := StripComment(lines[|lines| - 1]);
      KeptStep(lines);
      KeptEmpty(init);
      BlankSnoc(lines);
    }
  }

  /** One unfolding of Kept at the last line: the result is empty exactly
      when the earlier lines keep nothing and the last is blank. */
  lemma KeptStep(lines: seq<string>)
    requires lines != []
    ensures var line := StripComment(lines[|lines| - 1]);
      Kept(lines) == [] <==> Kept(lines[..|lines| - 1]) == [] && line == []
  {
    var line := StripComment(lines[|lines| - 1]);
    var tail: seq<string> := if line == [] then [] else [line];
    assert Kept(lines) == Kept(lines[..|lines| - 1]) + tail;
  }

  lemma BlankSnoc(lines: seq<string>)
    requires lines != []
    ensures var init := lines[..|lines| - 1];
      (forall i :: 0 <= i < |lines| ==> StripComment(lines[i]) == []) <==>
      (forall i :: 0 <= i < |init| ==> StripComment(init[i]) == []) && StripComment(lines[|lines| - 1]) == []
  {
    var init := lines[..|lines| - 1];
    assert forall i :: 0 <= i < |init| ==> init[i] == lines[i];
  }

  /** The rows parsed from the lines. */
  function Rows(lines: seq<string>, delim: char, columns: nat): (r: seq<seq<Option<string>>>)
    ensures |r| == |Kept(lines)|
    ensures forall k :: 0 <= k < |r| ==> r[k] == Row(Kept(lines)[k], delim, columns)
  {
    var kept := Kept(lines);
    seq(|kept|, k requires 0 <= k < |kept| => Row(kept[k], delim, columns))
  }

  /** `csv_cell_formatter<bool>` on one cell. */
  datatype BoolCell = Parsed(value: bool) | NumericFallback(word: string)

  predicate IsSpace(c: char)
  {
    c == ' ' || c == '\t' || c == '\n' || c == 11 as char || c == 12 as char || c == '\r'
  }

  function SkipSpace(s: string): (r: string)
    ensures |r| <= |s| && r == s[|s| - |r|..]
    ensures forall i :: 0 <= i < |s| - |r| ==> IsSpace(s[i])
    ensures r == [] || !IsSpace(r[0])
  {
    if s != [] && IsSpace(s[0]) then SkipSpace(s[1..]) else s
  }

  function TakeWord(s: string): (r: string)
    ensures r <= s
    ensures forall i :: 0 <= i < |r| ==> !IsSpace(r[i])
    ensures |r| < |s| ==> IsSpace(s[|r|])
  {
    if s == [] || IsSpace(s[0]) then [] else [s[0]] + TakeWord(s[1..])
  }

  /** `strm >> csvElem`: the first whitespace-delimited word. */
  function ExtractWord(cell: string): (r: string)
    ensures forall i :: 0 <= i < |r| ==> !IsSpace(r[i])
  {
    TakeWord(SkipSpace(cell))
  }

  /** The bool formatter: the word lower-cased is compared with "true" and
      "false"; any other word is handed to the stream's numeric `bool`
      extraction. */
  function ParseBool(cell: string): (r: BoolCell)
    ensures ToLower(ExtractWord(cell)) == "true" <==> r == Parsed(true)
    ensures ToLower(ExtractWord(cell)) == "false" <==> r == Parsed(false)
    ensures r.NumericFallback? ==> r.word == ExtractWord(cell)
  {
    var csvElem := ExtractWord(cell);
    var asLower := ToLower(csvElem);
    if asLower == "true" then Parsed(true)
    else if asLower == "false" then Parsed(false)
    else NumericFallback(csvElem)
  }

  /** Leading blanks are skipped: `SkipSpace` removes exactly them. */
  lemma {:induction false} SkipSpacePrefix(pre: string, rest: string)
    requires forall i :: 0 <= i < |pre| ==> IsSpace(pre[i])
    requires rest == [] || !IsSpace(rest[0])
    ensures SkipSpace(pre + rest) == rest
  {
    if pre == [] {
      assert pre + rest == rest;
    } else {
      assert (pre + rest)[1..] == pre[1..] + rest;
      SkipSpacePrefix(pre[1..], rest);
    }
  }

  /** The word ends at the first blank, or at the end of the cell. */
  lemma {:induction false} TakeWordPrefix(w: string, post: string)
    requires forall i :: 0 <= i < |w| ==> !IsSpace(w[i])
    requires post == [] || IsSpace(post[0])
    ensures TakeWord(w + post) == w
  {
    if w == [] {
      assert w + post == post;
    } else {
      assert (w + post)[0] == w[0];
      assert (w + post)[1..] == w[1..] + post;
      TakeWordPrefix(w[1..], post);
      assert w == [w[0]] + w[1..];
    }
  }

  /** The word of a cell made of blanks, a non-empty word and then nothing
      or a blank and anything. */
  lemma ExtractPadded(pre: string, w: string, post: string)
    requires forall i :: 0 <= i < |pre| ==> IsSpace(pre[i])
    requires w != [] && forall i :: 0 <= i < |w| ==> !IsSpace(w[i])
    requires post == [] || IsSpace(post[0])
    ensures ExtractWord(pre + w + post) == w
  {
    assert pre + w + post == pre + (w + post);
    SkipSpacePrefix(pre, w + post);
    TakeWordPrefix(w, post);
  }

  /** A cell reading "true" or "false" in any mixture of cases, with blanks
      around it, parses to that truth value. */
  lemma ParseBoolPadded(pre: string, w: string, post: string)
    requires forall i :: 0 <= i < |pre| ==> IsSpace(pre[i])
    requires forall i :: 0 <= i < |w| ==> !IsSpace(w[i])
    requires post == [] || IsSpace(post[0])
    ensures ToLower(w) == "true" ==> ParseBool(pre + w + post) == Parsed(true)
    ensures ToLower(w) == "false" ==> ParseBool(pre + w + post) == Parsed(false)
  {
    if w != [] {
      ExtractPadded(pre, w, post);
    }
  }

  /** " TRUE " parses to true. */
  lemma ParseBoolUpperTrue()
    ensures ParseBool(" TRUE ") == Parsed(true)
  {
    var w := "TRUE";
    assert ToLower(w) == "true";
    assert !IsSpace(w[0]) && !IsSpace(w[1]) && !IsSpace(w[2]) && !IsSpace(w[3]);
    assert " TRUE " == " " + w + " ";
    ParseBoolPadded(" ", w, " ");
  }

  /** "False" parses to false. */
  lemma ParseBoolMixedFalse()
    ensures ParseBool("False") == Parsed(false)
  {
    var w := "False";
    assert ToLower(w) == "false";
    assert !IsSpace(w[0]) && !IsSpace(w[1]) && !IsSpace(w[2]) && !IsSpace(w[3]) && !IsSpace(w[4]);
    assert w == [] + w + [];
    ParseBoolPadded([], w, []);
  }

  /** `csv_parser`: the rows of the file, `m_File`. */
  class CsvParser {
    var rows: seq<seq<Option<string>>>

    /** `csv_parser(fileName, delim)` over an opened file's lines: the
        getline loop appends one row per kept line. */
    constructor (lines: seq<string>, delim: char, columns: nat)
      ensures rows == Rows(lines, delim, columns)
    {
      var file: seq<seq<Option<string>>> := [];
      var i := 0;
      while i < |lines|
        invariant 0 <= i <= |lines|
        invariant file == Rows(lines[..i], delim, columns)
      {
        var line := lines[i];
        var pos := FindFirst(line, '#');
        if pos < |line| {
          line := line[..pos];
        }
        assert lines[..i + 1][..i] == lines[..i];
        if line != [] {
          file := file + [Row(line, delim, columns)];
        }
        i := i + 1;
      }
      assert lines[..|lines|] == lines;
      rows := file;
    }

    /** `at(idx)`: `std::vector::at`, out_of_range past the last row. */
    function At(idx: nat): (r: Result<seq<Option<string>>>)
      reads this
      ensures r.Err? <==> idx >= |rows|
      ensures r.Err? ==> r.error == OutOfRange
      ensures r.Ok? ==> r.value == rows[idx]
    {
      if idx < |rows| then Ok(rows[idx]) else Err(OutOfRange)
    }
  }

  /** `csv_parser(fileName, delim)`: the stream is the file's lines, or None
      when it fails to open, which throws runtime_error. */
  method Open(file: Option<seq<string>>, delim: char, columns: nat) returns (r: Result<CsvParser>)
    ensures file.None? <==> r.Err?
    ensures r.Err? ==> r.error == RuntimeError
    ensures r.Ok? ==> fresh(r.value) && r.value.rows == Rows(file.value, delim, columns)
  {
    if file.None? {
      return Err(RuntimeError);
    }
    var p := new CsvParser(file.value, delim, columns);
    r := Ok(p);
  }

  /** `csv_parser(fileName)`: the delimiter is ','. */
  method OpenDefault(file: Option<seq<string>>, columns: nat) returns (r: Result<CsvParser>)
    ensures file.None? <==> r.Err?
    ensures r.Err? ==> r.error == RuntimeError
    ensures r.Ok? ==> fresh(r.value) && r.value.rows == Rows(file.value, ',', columns)
  {
    r := Open(file, ',', columns);
  }
}
