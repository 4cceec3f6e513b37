/**
  fix_keras_imports.py: rewrites the deprecated `keras.*` imports of a Jupyter
  notebook's code cells into `tensorflow.keras.*` imports and writes the
  notebook back only when something changed. The notebook file is an object
  holding its cells; reading and writing the JSON are left out.
 */
module KerasImports {
  import Text

  /** The replacements, pattern then replacement, in the order the script applies them. */
  const Replacements: seq<(string, string)> := [
    ("from keras.preprocessing.text import", "from tensorflow.keras.preprocessing.text import"),
    ("from keras.preprocessing.sequence import", "from tensorflow.keras.preprocessing.sequence import"),
    ("from keras.models import", "from tensorflow.keras.models import"),
    ("from keras.layers import", "from tensorflow.keras.layers import"),
    ("from keras.", "from tensorflow.keras."),
    ("import keras.", "import tensorflow.keras.")
  ]

  /** Every pattern is non-empty and shorter than its replacement. */
  predicate Growing(table: seq<(string, string)>) {
    forall k :: 0 <= k < |table| ==> 0 < |table[k].0| < |table[k].1|
  }

  lemma ReplacementsGrow()
    ensures Growing(Replacements)
  {
  }

  /** One step of the inner loop: `text` with every occurrence of the pattern replaced, if it occurs. */
  function Step(text: string, rule: (string, string)): (r: string)
    requires 0 < |rule.0| < |rule.1|
    ensures |r| >= |text|
    ensures r != text ==> |r| > |text|
    ensures r != text <==> Text.Contains(text, rule.0)
  {
    Text.ReplaceAllGrows(text, rule.0, rule.1);
    if Text.Contains(text, rule.0) then Text.ReplaceAll(text, rule.0, rule.1) else text
  }

  /** `text` after the rules of `table`, applied in order. */
  function RewriteWith(text: string, table: seq<(string, string)>): string
    requires Growing(table)
    decreases |table|
  {
    if table == [] then text else RewriteWith(Step(text, table[0]), table[1..])
  }

  /** A line, or a string source, after all the replacements of the script. */
  function Rewrite(text: string): string {
    ReplacementsGrow();
    RewriteWith(text, Replacements)
  }

  /** `text` holds the pattern of some rule of `table`. */
  predicate MentionsAny(text: string, table: seq<(string, string)>) {
    exists j :: 0 <= j < |table| && Text.Contains(text, table[j].0)
  }

  /** `text` holds one of the deprecated import patterns. */
  predicate MentionsKeras(text: string) {
    MentionsAny(text, Replacements)
  }

  lemma {:induction false} RewriteWithGrows(text: string, table: seq<(string, string)>)
    requires Growing(table)
    ensures |RewriteWith(text, table)| >= |text|
    ensures RewriteWith(text, table) != text ==> |RewriteWith(text, table)| > |text|
    ensures RewriteWith(text, table) != text <==> MentionsAny(text, table)
    decreases |table|
  {
    if table != [] {
      var next := Step(text, table[0]);
      var rest := table[1..];
      RewriteWithGrows(next, rest);
      if next == text {
        assert MentionsAny(text, table) <==> MentionsAny(text, rest) by {
          if MentionsAny(text, table) {
            var j :| 0 <= j < |table| && Text.Contains(text, table[j].0);
            assert j > 0 && rest[j - 1] == table[j];
          }
          if MentionsAny(text, rest) {
            var j :| 0 <= j < |rest| && Text.Contains(text, rest[j].0);
            assert table[j + 1] == rest[j];
          }
        }
      } else {
        assert |next| > |text|;
        assert MentionsAny(text, table) by {
          assert Text.Contains(text, table[0].0);
        }
      }
    }
  }

  /**
    A line changes exactly when it holds one of the patterns; the rewrite
    never shortens it, and a line holding none of them is left alone.
   */
  lemma RewriteChanges(text: string)
    ensures Rewrite(text) != text <==> MentionsKeras(text)
    ensures |Rewrite(text)| >= |text|
  {
    ReplacementsGrow();
    RewriteWithGrows(text, Replacements);
  }

  /**
    The replacement loop for one line or one string source: the text after
    every rule of `table`, and whether it differs from the original.
   */
  method RewriteText(text: string, table: seq<(string, string)>) returns (result: string, changed: bool)
    requires Growing(table)
    ensures result == RewriteWith(text, table)
    ensures changed <==> result != text
  {
    result := text;
    changed := false;
    for k := 0 to |table|
      invariant RewriteWith(result, table[k..]) == RewriteWith(text, table)
      invariant |result| >= |text|
      invariant result != text ==> |result| > |text|
      invariant changed <==> result != text
    {
      var (pattern, replacement) := table[k];
      assert table[k..][1..] == table[k + 1..];
      if Text.Contains(result, pattern) {
        Text.ReplaceAllGrows(result, pattern, replacement);
        result := Text.ReplaceAll(result, pattern, replacement);
        if result != text {
          changed := true;
        }
      }
    }
  }

  /** A cell's `source`: a list of lines, one string, or anything else (left alone). */
  datatype Source = Lines(lines: seq<string>) | Whole(text: string) | OtherSource

  datatype Cell = Cell(cellType: string, source: Source)

  /** Every line rewritten by the rules of `table`, none added or dropped. */
  function RewriteLines(lines: seq<string>, table: seq<(string, string)>): (r: seq<string>)
    requires Growing(table)
    ensures |r| == |lines|
    ensures forall i :: 0 <= i < |lines| ==> r[i] == RewriteWith(lines[i], table)
  {
    seq(|lines|, i requires 0 <= i < |lines| => RewriteWith(lines[i], table))
  }

  /** A cell after the script: only code cells with a list or string source are rewritten. */
  function FixCell(c: Cell, table: seq<(string, string)>): (r: Cell)
    requires Growing(table)
    ensures r.cellType == c.cellType
    ensures c.cellType != "code" ==> r == c
  {
    if c.cellType != "code" then c
    else
      match c.source
      case Lines(lines) => Cell(c.cellType, Lines(RewriteLines(lines, table)))
      case Whole(text) => Cell(c.cellType, Whole(RewriteWith(text, table)))
      case OtherSource => c
  }

  /** A cell the script changes: a code cell with a line, or a string source, holding a pattern. */
  predicate NeedsFix(c: Cell, table: seq<(string, string)>) {
    && c.cellType == "code"
    && match c.source
       case Lines(lines) => exists i :: 0 <= i < |lines| && MentionsAny(lines[i], table)
       case Whole(text) => MentionsAny(text, table)
       case OtherSource => false
  }

  /** The script changes a cell exactly when the cell needs it. */
  lemma FixCellChanges(c: Cell, table: seq<(string, string)>)
    requires Growing(table)
    ensures FixCell(c, table) != c <==> NeedsFix(c, table)
  {
    if c.cellType == "code" {
      match c.source
      case Lines(lines) =>
        var fixed := RewriteLines(lines, table);
        if exists i :: 0 <= i < |lines| && MentionsAny(lines[i], table) {
          var i :| 0 <= i < |lines| && MentionsAny(lines[i], table);
          RewriteWithGrows(lines[i], table);
          assert fixed[i] != lines[i];
        } else {
          forall i | 0 <= i < |lines|
            ensures fixed[i] == lines[i]
          {
            RewriteWithGrows(lines[i], table);
          }
          assert fixed == lines;
        }
      case Whole(text) =>
        RewriteWithGrows(text, table);
      case OtherSource =>
    }
  }

  /** The notebook's cells after the script, before the write-back decision. */
  function FixCells(cells: seq<Cell>, table: seq<(string, string)>): (r: seq<Cell>)
    requires Growing(table)
    ensures |r| == |cells|
    ensures forall i :: 0 <= i < |cells| ==> r[i] == FixCell(cells[i], table)
  {
    seq(|cells|, i requires 0 <= i < |cells| => FixCell(cells[i], table))
  }

  /** Some cell needs fixing. */
  predicate AnyNeedsFix(cells: seq<Cell>, table: seq<(string, string)>) {
    exists i :: 0 <= i < |cells| && NeedsFix(cells[i], table)
  }

  /** The cells change exactly when some code cell holds a pattern. */
  lemma FixCellsChanges(cells: seq<Cell>, table: seq<(string, string)>)
    requires Growing(table)
    ensures FixCells(cells, table) != cells <==> AnyNeedsFix(cells, table)
  {
    var fixed := FixCells(cells, table);
    if AnyNeedsFix(cells, table) {
      var i :| 0 <= i < |cells| && NeedsFix(cells[i], table);
      FixCellChanges(cells[i], table);
      assert fixed[i] != cells[i];
    } else {
      forall i | 0 <= i < |cells|
        ensures fixed[i] == cells[i]
      {
        FixCellChanges(cells[i], table);
      }
      assert fixed == cells;
    }
  }

  /** Rewriting one more line extends the rewritten prefix by that line. */
  lemma RewriteLinesSnoc(lines: seq<string>, j: nat, table: seq<(string, string)>)
    requires j < |lines| && Growing(table)
    ensures RewriteLines(lines[..j + 1], table) == RewriteLines(lines[..j], table) + [RewriteWith(lines[j], table)]
  {
    var a := RewriteLines(lines[..j + 1], table);
    var b := RewriteLines(lines[..j], table) + [RewriteWith(lines[j], table)];
    assert forall m :: 0 <= m < j + 1 ==> a[m] == b[m];
  }

  /** Two equally long sequences, each with one more element, differ exactly when a part does. */
  lemma SnocDiffers<T>(a: seq<T>, b: seq<T>, x: T, y: T)
    requires |a| == |b|
    ensures a + [x] != b + [y] <==> a != b || x != y
  {
    if a + [x] == b + [y] {
      assert a == (a + [x])[..|a|] && b == (b + [y])[..|b|];
      assert x == (a + [x])[|a|] && y == (b + [y])[|b|];
    }
  }

  /** The loop over the lines of a list source: the rewritten lines, and whether any changed. */
  method RewriteSourceLines(source: seq<string>, table: seq<(string, string)>) returns (newSource: seq<string>, changed: bool)
    requires Growing(table)
    ensures newSource == RewriteLines(source, table)
    ensures changed <==> newSource != source
  {
    newSource := [];
    changed := false;
    for j := 0 to |source|
      invariant newSource == RewriteLines(source[..j], table)
      invariant changed <==> newSource != source[..j]
    {
      var line, lineChanged := RewriteText(source[j], table);
      RewriteLinesStep(source, j, newSource, line, table);
      if lineChanged {
        changed := true;
      }
      newSource := newSource + [line];
    }
    assert source[..|source|] == source;
  }

  /** One more rewritten line extends the rewritten prefix, which differs exactly where a line differs. */
  lemma RewriteLinesStep(source: seq<string>, j: nat, done: seq<string>, line: string, table: seq<(string, string)>)
    requires j < |source| && Growing(table)
    requires done == RewriteLines(source[..j], table) && line == RewriteWith(source[j], table)
    ensures done + [line] == RewriteLines(source[..j + 1], table)
    ensures done + [line] != source[..j + 1] <==> done != source[..j] || line != source[j]
  {
    RewriteLinesSnoc(source, j, table);
    SnocDiffers(done, source[..j], line, source[j]);
    assert source[..j + 1] == source[..j] + [source[j]];
  }

  /** The body of the loop over cells, for one cell. */
  method FixOneCell(cell: Cell, table: seq<(string, string)>) returns (fixed: Cell, changed: bool)
    requires Growing(table)
    ensures fixed == FixCell(cell, table)
    ensures changed <==> fixed != cell
  {
    fixed := cell;
    changed := false;
    if cell.cellType == "code" {
      match cell.source {
        case Lines(source) =>
          var newSource;
          newSource, changed := RewriteSourceLines(source, table);
          fixed := Cell(cell.cellType, Lines(newSource));
        case Whole(source) =>
          var text;
          text, changed := RewriteText(source, table);
          fixed := Cell(cell.cellType, Whole(text));
        case OtherSource =>
      }
    }
  }

  /**
    The loop over the cells: every cell of `notebook` is replaced, in place,
    by its fixed form; returns whether any cell changed.
   */
  method FixCellsInPlace(notebook: array<Cell>, table: seq<(string, string)>) returns (modified: bool)
    requires Growing(table)
    modifies notebook
    ensures notebook[..] == FixCells(old(notebook[..]), table)
    ensures modified <==> notebook[..] != old(notebook[..])
  {
    ghost var loaded := notebook[..];
    modified := false;
    for i := 0 to notebook.Length
      invariant forall k :: 0 <= k < i ==> notebook[k] == FixCell(loaded[k], table)
      invariant forall k :: i <= k < notebook.Length ==> notebook[k] == loaded[k]
      invariant modified <==> exists k :: 0 <= k < i && notebook[k] != loaded[k]
    {
      var fixed, changed := FixOneCell(notebook[i], table);
      if changed {
        modified := true;
      }
      notebook[i] := fixed;
    }
    ghost var expected := FixCells(loaded, table);
    assert forall k :: 0 <= k < |loaded| ==> notebook[..][k] == expected[k];
    assert notebook[..] == expected;
    if !modified {
      assert forall k :: 0 <= k < |loaded| ==> notebook[..][k] == loaded[k];
    }
  }

  /** The notebook file on disk. */
  class NotebookFile {
    var cells: seq<Cell>

    constructor (initial: seq<Cell>)
      ensures cells == initial
    {
      cells := initial;
    }

    /**
      `fix_keras_imports`: loads the cells, rewrites the code cells in place,
      and writes them back only when something changed. Returns whether it did.
     */
    method FixKerasImports() returns (modified: bool)
      modifies this
      ensures modified <==> FixCells(old(cells), Replacements) != old(cells)
      ensures modified ==> cells == FixCells(old(cells), Replacements)
      ensures !modified ==> cells == old(cells)
    {
      ReplacementsGrow();
      var loaded := cells;
      var notebook := new Cell[|loaded|](i requires 0 <= i < |loaded| => loaded[i]);
      assert notebook[..] == loaded;
      modified := FixCellsInPlace(notebook, Replacements);
      if modified {
        cells := notebook[..];
      }
    }
  }
}
