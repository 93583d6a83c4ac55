/** The comparison in `main`: both directory lists are joined with "\n",
    line-diffed, and every change of the edit script is printed with a sign
    chosen from its tag and, for a deletion, from whether the path exists.

    The `similar` crate's diff algorithm is not part of this model: the edit
    script is an input, required to be well formed (its equal and deleted
    lines spell the first text, its equal and inserted lines the second).
    `Path::exists` is a predicate over path strings. */
module Reconciler {

  // ---------------------------------------------------------------------
  // Joining and line tokenisation
  // ---------------------------------------------------------------------

  /** `Vec::join("\n")`: the entries in order with a "\n" between each two;
      the first entry begins the text and a "\n" follows it when more come. */
  function JoinLines(xs: seq<string>): (r: string)
    ensures xs == [] ==> r == ""
    ensures xs != [] ==> xs[0] <= r
    ensures |xs| > 1 ==> |r| > |xs[0]| && r[|xs[0]|] == '\n'
    decreases |xs|
  {
    if xs == [] then ""
    else if |xs| == 1 then xs[0]
    else xs[0] + "\n" + JoinLines(xs[1..])
  }

  /** The texts one after another. */
  function Concat(ts: seq<string>): string
    decreases |ts|
  {
    if ts == [] then "" else ts[0] + Concat(ts[1..])
  }

  /** The length of the first line of `s`, its terminating "\n" included. */
  function LineEnd(s: string): (e: nat)
    requires s != []
    ensures 1 <= e <= |s|
    ensures e == |s| || s[e - 1] == '\n'
    ensures forall k :: 0 <= k < e - 1 ==> s[k] != '\n'
    decreases |s|
  {
    if s[0] == '\n' || |s| == 1 then 1 else 1 + LineEnd(s[1..])
  }

  /** A line token: non-empty, with at most one "\n", at its end. */
  predicate IsLineToken(t: string) {
    t != [] && forall k :: 0 <= k < |t| - 1 ==> t[k] != '\n'
  }

  /** The line tokens of a text as `TextDiff::from_lines` splits it: each
      line keeps its "\n"; only the last may lack one. Splitting loses
      nothing: the tokens spell the text again. */
  function Lines(s: string): (r: seq<string>)
    ensures Concat(r) == s
    ensures forall i :: 0 <= i < |r| ==> IsLineToken(r[i])
    ensures forall i :: 0 <= i < |r| - 1 ==> r[i] != [] && r[i][|r[i]| - 1] == '\n'
    decreases |s|
  {
    if s == [] then []
    else
      var e := LineEnd(s);
      var rest := Lines(s[e..]);
      assert s == s[..e] + s[e..];
      assert forall i :: 1 <= i < |rest| + 1 ==> ([s[..e]] + rest)[i] == rest[i - 1];
      assert ([s[..e]] + rest)[1..] == rest;
      [s[..e]] + rest
  }

  /** The tokens a joined list should give: every entry but the last with a
      "\n" after it. */
  function Terminated(xs: seq<string>): (r: seq<string>)
    ensures |r| == |xs|
    decreases |xs|
  {
    if |xs| <= 1 then xs else [xs[0] + "\n"] + Terminated(xs[1..])
  }

  /** A token without its line terminator. */
  function StripTerminator(t: string): (r: string)
    ensures r <= t
    ensures '\n' !in t ==> r == t
  {
    if t != [] && t[|t| - 1] == '\n' then t[..|t| - 1] else t
  }

  /** A directory path that survives joining and splitting as one line. */
  predicate IsPlainPath(d: string) {
    '\n' !in d
  }

  /** Joining paths that hold no "\n", and whose last is not empty, and
      splitting the result into lines gives one token per path, in order:
      the path and a "\n", except the last, which has none. */
  lemma {:induction false} LinesOfJoined(xs: seq<string>)
    requires forall i :: 0 <= i < |xs| ==> IsPlainPath(xs[i])
    requires xs != [] ==> xs[|xs| - 1] != ""
    ensures Lines(JoinLines(xs)) == Terminated(xs)
    decreases |xs|
  {
    if |xs| == 1 {
      var s := xs[0];
      assert LineEnd(s) == |s|;
      assert s[..|s|] == s;
      assert s[|s|..] == [];
      assert Lines(s) == [s] + Lines([]);
    } else if |xs| > 1 {
      var rest := xs[1..];
      assert forall i :: 0 <= i < |rest| ==> rest[i] == xs[i + 1];
      LinesOfJoined(rest);
      var s := xs[0] + "\n" + JoinLines(rest);
      assert s[|xs[0]|] == '\n';
      assert forall k :: 0 <= k < |xs[0]| ==> s[k] == xs[0][k];
      assert LineEnd(s) == |xs[0]| + 1;
      assert s[..|xs[0]| + 1] == xs[0] + "\n";
      assert s[|xs[0]| + 1..] == JoinLines(rest);
    }
  }

  /** Removing the terminators from those tokens gives the paths back. */
  lemma {:induction false} StripTerminated(xs: seq<string>)
    requires forall i :: 0 <= i < |xs| ==> IsPlainPath(xs[i])
    ensures forall i :: 0 <= i < |xs| ==> StripTerminator(Terminated(xs)[i]) == xs[i]
    decreases |xs|
  {
    if |xs| > 1 {
      var rest := xs[1..];
      assert forall i :: 0 <= i < |rest| ==> rest[i] == xs[i + 1];
      StripTerminated(rest);
      assert (xs[0] + "\n")[..|xs[0]|] == xs[0];
      forall i | 0 <= i < |xs| ensures StripTerminator(Terminated(xs)[i]) == xs[i] {
        if i > 0 {
          assert Terminated(xs)[i] == Terminated(rest)[i - 1];
        }
      }
    }
  }

  /** A final "/x" and a non-final "/x" are different tokens, so moving a path
      to or from the end of a list shows up as a change; and a trailing empty
      path leaves no token at all. */
  lemma TokenEdgeCases()
    ensures Lines(JoinLines(["/x", "/y"]))[0] != Lines(JoinLines(["/y", "/x"]))[1]
    ensures Lines(JoinLines(["/a", ""])) == ["/a\n"]
  {
    LinesOfJoined(["/x", "/y"]);
    LinesOfJoined(["/y", "/x"]);
    assert "/x" + "\n" != "/x";
    var s := JoinLines(["/a", ""]);
    assert ["/a", ""][1..] == [""];
    assert s == "/a\n";
    assert LineEnd(s) == 3;
    assert s[..3] == "/a\n";
    assert s[3..] == [];
    assert Lines(s) == [s[..3]] + Lines([]);
  }

  // ---------------------------------------------------------------------
  // The edit script
  // ---------------------------------------------------------------------

  datatype Tag = Equal | Delete | Insert

  /** One change of the diff: its tag and its line token. */
  datatype Change = Change(tag: Tag, value: string)

  /** The tokens of the first ("before") text: equal and deleted lines. */
  function OldSide(script: seq<Change>): seq<string>
    decreases |script|
  {
    if script == [] then []
    else (if script[0].tag == Insert then [] else [script[0].value]) + OldSide(script[1..])
  }

  /** The tokens of the second ("after") text: equal and inserted lines. */
  function NewSide(script: seq<Change>): seq<string>
    decreases |script|
  {
    if script == [] then []
    else (if script[0].tag == Delete then [] else [script[0].value]) + NewSide(script[1..])
  }

  /** What any line diff of `before` against `after` returns. */
  predicate IsEditScript(script: seq<Change>, before: string, after: string) {
    OldSide(script) == Lines(before) && NewSide(script) == Lines(after)
  }

  // ---------------------------------------------------------------------
  // Classification
  // ---------------------------------------------------------------------

  datatype Sign = Match | RemovedExisting | RemovedStale | Added

  /** The printed sign of each kind: four different one-character markers. */
  function Marker(sign: Sign): (m: string)
    ensures |m| == 1
  {
    match sign
    case Match => " "
    case RemovedExisting => "-"
    case RemovedStale => "x"
    case Added => "+"
  }

  lemma MarkersAreDistinct(a: Sign, b: Sign)
    requires Marker(a) == Marker(b)
    ensures a == b
  {
  }

  /** `change.to_string()`: the `similar` crate's `Display` for a change
      writes the token and, when the token does not end in a newline, a "\n". */
  function DisplayText(c: Change): (r: string)
    ensures r != [] && r[|r| - 1] == '\n'
    ensures StripTerminator(r) == StripTerminator(c.value)
  {
    if c.value != [] && c.value[|c.value| - 1] == '\n' then c.value
    else
      assert (c.value + "\n")[..|c.value|] == c.value;
      c.value + "\n"
  }

  /** The sign as `main` chooses it: a deletion is "-" when the change's
      display text names an existing path, "x" otherwise. */
  function ClassifyAsWritten(c: Change, pathExists: string -> bool): (r: Sign)
    ensures r == Match <==> c.tag == Equal
    ensures r == Added <==> c.tag == Insert
    ensures c.tag == Delete ==> (r == RemovedExisting <==> pathExists(DisplayText(c)))
    ensures c.tag == Delete ==> (r == RemovedStale <==> !pathExists(DisplayText(c)))
  {
    match c.tag
    case Delete => if pathExists(DisplayText(c)) then RemovedExisting else RemovedStale
    case Insert => Added
    case Equal => Match
  }

  /** The sign as intended: a deletion is "-" exactly when the deleted
      directory (the token without its terminator) exists. */
  function Classify(c: Change, pathExists: string -> bool): (r: Sign)
    ensures r == Match <==> c.tag == Equal
    ensures r == Added <==> c.tag == Insert
    ensures c.tag == Delete ==> (r == RemovedExisting <==> pathExists(StripTerminator(c.value)))
    ensures c.tag == Delete ==> (r == RemovedStale <==> !pathExists(StripTerminator(c.value)))
  {
    match c.tag
    case Delete => if pathExists(StripTerminator(c.value)) then RemovedExisting else RemovedStale
    case Insert => Added
    case Equal => Match
  }

  /** As written, "-" needs an existing path whose name ends in a newline:
      when no such path exists, every deletion is reported as stale. */
  lemma AsWrittenNeverReportsExisting(c: Change, pathExists: string -> bool)
    requires forall p :: pathExists(p) ==> p == [] || p[|p| - 1] != '\n'
    ensures ClassifyAsWritten(c, pathExists) != RemovedExisting
  {
  }

  /** The two agree except on a deletion of a directory that exists. */
  lemma ClassificationsAgreeElsewhere(c: Change, pathExists: string -> bool)
    requires forall p :: pathExists(p) ==> p == [] || p[|p| - 1] != '\n'
    ensures ClassifyAsWritten(c, pathExists) == Classify(c, pathExists)
            <==> !(c.tag == Delete && pathExists(StripTerminator(c.value)))
  {
  }

  /** The authoritative list is [/b, /a], the parser's is [/a], and /b exists:
      the edit script deletes "/b\n"; as written the row is "x" (stale),
      although the directory exists, where "-" is meant. */
  lemma ExistingDirectoryReportedStale()
    ensures IsEditScript([Change(Delete, "/b\n"), Change(Equal, "/a")],
                         JoinLines(["/b", "/a"]), JoinLines(["/a"]))
    ensures ClassifyAsWritten(Change(Delete, "/b\n"), p => p == "/b") == RemovedStale
    ensures Classify(Change(Delete, "/b\n"), p => p == "/b") == RemovedExisting
  {
    LinesOfJoined(["/b", "/a"]);
    LinesOfJoined(["/a"]);
    var script := [Change(Delete, "/b\n"), Change(Equal, "/a")];
    assert script[1..][1..] == [];
    assert OldSide(script) == ["/b\n", "/a"];
    assert NewSide(script) == ["/a"];
    assert "/b" + "\n" == "/b\n";
    assert "/b\n"[..2] == "/b";
  }

  // ---------------------------------------------------------------------
  // The report
  // ---------------------------------------------------------------------

  /** Which text a deletion's existence check looks at: the change's display
      text, as `main` is written, or the deleted directory, as intended. */
  datatype ExistenceCheck = OnDisplayText | OnDirectory

  /** The sign of a change under either check. Both agree with the tag on
      equal and inserted lines. */
  function SignOf(c: Change, pathExists: string -> bool, check: ExistenceCheck): (r: Sign)
    ensures r == Match <==> c.tag == Equal
    ensures r == Added <==> c.tag == Insert
  {
    match check
    case OnDisplayText => ClassifyAsWritten(c, pathExists)
    case OnDirectory => Classify(c, pathExists)
  }

  /** One printed row: a sign and the change's text. */
  datatype Row = Row(sign: Sign, text: string)

  /** The rows of the report, one per change. `main` prints
      `Rows(script, pathExists, OnDisplayText)`. */
  function Rows(script: seq<Change>, pathExists: string -> bool, check: ExistenceCheck): (r: seq<Row>)
    ensures |r| == |script|
    decreases |script|
  {
    if script == [] then []
    else [Row(SignOf(script[0], pathExists, check), script[0].value)] + Rows(script[1..], pathExists, check)
  }

  /** The texts of the rows that come from the authoritative list
      (" ", "-" and "x" rows). */
  function BeforeTexts(rows: seq<Row>): seq<string>
    decreases |rows|
  {
    if rows == [] then []
    else (if rows[0].sign == Added then [] else [rows[0].text]) + BeforeTexts(rows[1..])
  }

  /** The texts of the rows that come from the parser's list (" " and "+" rows). */
  function AfterTexts(rows: seq<Row>): seq<string>
    decreases |rows|
  {
    if rows == [] then []
    else (if rows[0].sign == Match || rows[0].sign == Added then [rows[0].text] else [])
         + AfterTexts(rows[1..])
  }

  /** The report follows the edit script: one row per change, in its order,
      with the change's text and its sign. */
  lemma {:induction false} RowsFollowScript(script: seq<Change>, pathExists: string -> bool, check: ExistenceCheck)
    ensures forall i :: 0 <= i < |script| ==>
              Rows(script, pathExists, check)[i] == Row(SignOf(script[i], pathExists, check), script[i].value)
    decreases |script|
  {
    if script != [] {
      RowsFollowScript(script[1..], pathExists, check);
      forall i | 0 <= i < |script|
        ensures Rows(script, pathExists, check)[i] == Row(SignOf(script[i], pathExists, check), script[i].value)
      {
        if i > 0 {
          assert script[i] == script[1..][i - 1];
        }
      }
    }
  }

  /** Reading the report back: the " ", "-" and "x" rows spell the first
      text's lines, the " " and "+" rows the second's. */
  lemma {:induction false} RowsKeepBothSides(script: seq<Change>, pathExists: string -> bool, check: ExistenceCheck)
    ensures BeforeTexts(Rows(script, pathExists, check)) == OldSide(script)
    ensures AfterTexts(Rows(script, pathExists, check)) == NewSide(script)
    decreases |script|
  {
    if script != [] {
      RowsKeepBothSides(script[1..], pathExists, check);
      var rows := Rows(script, pathExists, check);
      assert rows[1..] == Rows(script[1..], pathExists, check);
    }
  }

  /** The printed report and the intended one list the same texts in the
      same order; their signs differ exactly on the deletions of directories
      that exist (when no existing path ends in a newline). */
  lemma RowsDifferOnlyOnExistingDeletions(script: seq<Change>, pathExists: string -> bool)
    requires forall p :: pathExists(p) ==> p == [] || p[|p| - 1] != '\n'
    ensures forall i :: 0 <= i < |script| ==>
              Rows(script, pathExists, OnDisplayText)[i].text == Rows(script, pathExists, OnDirectory)[i].text
    ensures forall i :: 0 <= i < |script| ==>
              (Rows(script, pathExists, OnDisplayText)[i].sign != Rows(script, pathExists, OnDirectory)[i].sign
               <==> script[i].tag == Delete && pathExists(StripTerminator(script[i].value)))
  {
    RowsFollowScript(script, pathExists, OnDisplayText);
    RowsFollowScript(script, pathExists, OnDirectory);
    forall i | 0 <= i < |script|
      ensures ClassifyAsWritten(script[i], pathExists) == Classify(script[i], pathExists)
              <==> !(script[i].tag == Delete && pathExists(StripTerminator(script[i].value)))
    {
      ClassificationsAgreeElsewhere(script[i], pathExists);
    }
  }

  /** The rows of a suffix of the script: the first change's row, then the rest. */
  lemma RowsOfSuffix(script: seq<Change>, i: nat, pathExists: string -> bool, check: ExistenceCheck)
    requires i < |script|
    ensures Rows(script[i..], pathExists, check)
         == [Row(SignOf(script[i], pathExists, check), script[i].value)] + Rows(script[i + 1..], pathExists, check)
  {
    assert script[i..][1..] == script[i + 1..];
  }

  /** The loop in `main`: one row per change of the diff, in order, with the
      existence check on the change's display text. */
  method Reconcile(script: seq<Change>, pathExists: string -> bool) returns (rows: seq<Row>)
    ensures rows == Rows(script, pathExists, OnDisplayText)
  {
    rows := [];
    for i := 0 to |script|
      invariant rows + Rows(script[i..], pathExists, OnDisplayText) == Rows(script, pathExists, OnDisplayText)
    {
      RowsOfSuffix(script, i, pathExists, OnDisplayText);
      rows := rows + [Row(ClassifyAsWritten(script[i], pathExists), script[i].value)];
    }
    assert script[|script|..] == [];
  }

  /** `main`, from the two directory lists and a line diff of their joined
      texts to the rows of the report. Every authoritative directory appears
      as exactly one " ", "-" or "x" row and every parser directory as exactly
      one " " or "+" row, in list order, provided no path holds a newline and
      the last path of each list is not empty. */
  method Compare(ffiDirs: seq<string>, parserDirs: seq<string>, script: seq<Change>,
                 pathExists: string -> bool)
    returns (rows: seq<Row>)
    requires IsEditScript(script, JoinLines(ffiDirs), JoinLines(parserDirs))
    ensures rows == Rows(script, pathExists, OnDisplayText)
    ensures BeforeTexts(rows) == Lines(JoinLines(ffiDirs))
    ensures AfterTexts(rows) == Lines(JoinLines(parserDirs))
    ensures (forall i :: 0 <= i < |ffiDirs| ==> IsPlainPath(ffiDirs[i]))
            && (ffiDirs != [] ==> ffiDirs[|ffiDirs| - 1] != "") ==>
              |BeforeTexts(rows)| == |ffiDirs|
              && forall i :: 0 <= i < |ffiDirs| ==> StripTerminator(BeforeTexts(rows)[i]) == ffiDirs[i]
    ensures (forall i :: 0 <= i < |parserDirs| ==> IsPlainPath(parserDirs[i]))
            && (parserDirs != [] ==> parserDirs[|parserDirs| - 1] != "") ==>
              |AfterTexts(rows)| == |parserDirs|
              && forall i :: 0 <= i < |parserDirs| ==> StripTerminator(AfterTexts(rows)[i]) == parserDirs[i]
  {
    rows := Reconcile(script, pathExists);
    RowsKeepBothSides(script, pathExists, OnDisplayText);
    if (forall i :: 0 <= i < |ffiDirs| ==> IsPlainPath(ffiDirs[i])) && (ffiDirs != [] ==> ffiDirs[|ffiDirs| - 1] != "") {
      LinesOfJoined(ffiDirs);
      StripTerminated(ffiDirs);
    }
    if (forall i :: 0 <= i < |parserDirs| ==> IsPlainPath(parserDirs[i])) && (parserDirs != [] ==> parserDirs[|parserDirs| - 1] != "") {
      LinesOfJoined(parserDirs);
      StripTerminated(parserDirs);
    }
  }

  /** The script of the example below: keep /a, delete /b, insert /c. */
  const ExampleScript: seq<Change> := [Change(Equal, "/a\n"), Change(Delete, "/b"), Change(Insert, "/c")]

  /** The example's rows: " /a", then /b with the sign its deletion gets,
      then "+ /c". */
  lemma ExampleRows(pathExists: string -> bool, check: ExistenceCheck)
    ensures Rows(ExampleScript, pathExists, check)
         == [Row(Match, "/a\n"), Row(SignOf(Change(Delete, "/b"), pathExists, check), "/b"), Row(Added, "/c")]
  {
    RowsFollowScript(ExampleScript, pathExists, check);
  }

  /** The authoritative list [/a, /b] against the parser's [/a, /c], with /c on
      disk: " /a", "x /b", "+ /c" as printed, whether or not /b exists; the
      intended report has "- /b" when /b exists. */
  lemma ReportExample()
    ensures IsEditScript(ExampleScript, JoinLines(["/a", "/b"]), JoinLines(["/a", "/c"]))
    ensures Rows(ExampleScript, p => p == "/c", OnDisplayText)
         == [Row(Match, "/a\n"), Row(RemovedStale, "/b"), Row(Added, "/c")]
    ensures Rows(ExampleScript, p => p == "/b" || p == "/c", OnDisplayText)
         == [Row(Match, "/a\n"), Row(RemovedStale, "/b"), Row(Added, "/c")]
    ensures Rows(ExampleScript, p => p == "/c", OnDirectory)
         == [Row(Match, "/a\n"), Row(RemovedStale, "/b"), Row(Added, "/c")]
    ensures Rows(ExampleScript, p => p == "/b" || p == "/c", OnDirectory)
         == [Row(Match, "/a\n"), Row(RemovedExisting, "/b"), Row(Added, "/c")]
  {
    ExampleIsEditScript();
    var onlyC: string -> bool := p => p == "/c";
    var both: string -> bool := p => p == "/b" || p == "/c";
    ExampleRows(onlyC, OnDisplayText);
    ExampleRows(both, OnDisplayText);
    ExampleRows(onlyC, OnDirectory);
    ExampleRows(both, OnDirectory);
    var b := Change(Delete, "/b");
    assert DisplayText(b) == "/b\n";
    assert StripTerminator(b.value) == "/b";
    assert "/b\n" != "/b" && "/b\n" != "/c";
  }

  /** The example script is a line diff of the two joined lists. */
  lemma ExampleIsEditScript()
    ensures IsEditScript(ExampleScript, JoinLines(["/a", "/b"]), JoinLines(["/a", "/c"]))
  {
    LinesOfPair("/b");
    LinesOfPair("/c");
    var script := ExampleScript;
    assert script[1..][1..][1..] == [];
    assert OldSide(script[1..][1..]) == [] && NewSide(script[1..][1..]) == ["/c"];
    assert OldSide(script[1..]) == ["/b"] && NewSide(script[1..]) == ["/c"];
  }

  /** The lines of the list [/a, d]: "/a\n", then d. */
  lemma LinesOfPair(d: string)
    requires d == "/b" || d == "/c"
    ensures Lines(JoinLines(["/a", d])) == ["/a\n", d]
  {
    LinesOfJoined(["/a", d]);
    assert ["/a", d][1..] == [d];
    assert "/a" + "\n" == "/a\n";
  }
}
