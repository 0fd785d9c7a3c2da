/**
 * The list command's own logic: turning the optional filter word into a status
 * filter, and laying the listed tasks out as a two-column table.
 * String lengths are counted in characters, which matches the source's byte
 * lengths for ASCII text.
 */
module ListCommand {
  import opened Tasks

  /** The printed name of a status. It stands for the source's Status.String(), which is not part of this model. */
  function StatusName(s: Status): string
  {
    match s
    case Todo => "todo"
    case InProgress => "in-progress"
    case Done => "done"
  }

  /** ASCII lower-casing of one character. */
  function LowerChar(c: char): char
  {
    if 'A' <= c <= 'Z' then (c as int + 32) as char else c
  }

  function Lower(s: string): string
  {
    seq(|s|, i requires 0 <= i < |s| => LowerChar(s[i]))
  }

  // ---------------------------------------------------------------------------
  // The filter word

  /** The status filter chosen by the command line `task-cli list [word]`; args[2] is the word. */
  function FilterWord(args: seq<string>): (r: Option<Status>)
    ensures r.Some? ==> |args| > 2 && Lower(args[2]) == StatusName(r.value)
  {
    if |args| > 2 then
      var word := Lower(args[2]);
      if word == "todo" then Some(Todo)
      else if word == "in-progress" then Some(InProgress)
      else if word == "done" then Some(Done)
      else None
    else None
  }

  /**
   * The word selects a status exactly when, lower-cased, it is that status's
   * name; a missing word or any other word gives no filter.
   */
  lemma FilterWordNamesStatus(args: seq<string>, s: Status)
    ensures FilterWord(args) == Some(s) <==> |args| > 2 && Lower(args[2]) == StatusName(s)
    ensures FilterWord(args).None? <==>
      |args| <= 2 || forall s' :: Lower(args[2]) != StatusName(s')
  {
    assert StatusName(Todo) == "todo" && StatusName(InProgress) == "in-progress" && StatusName(Done) == "done";
    if |args| > 2 {
      var w := Lower(args[2]);
      assert "todo"[1] != "in-progress"[1] && "todo" != "done" && |"in-progress"| != |"done"|;
      if FilterWord(args).None? {
        forall s' ensures w != StatusName(s') {
          match s'
          case Todo =>
          case InProgress =>
          case Done =>
        }
      }
    }
  }

  // ---------------------------------------------------------------------------
  // The table

  /** The length of the longest description; 0 when there are no tasks. */
  function LongestDescription(ts: seq<Task>): (w: nat)
    ensures forall i :: 0 <= i < |ts| ==> |ts[i].description| <= w
    ensures ts != [] ==> exists i :: 0 <= i < |ts| && |ts[i].description| == w
    ensures ts == [] ==> w == 0
  {
    if ts == [] then 0
    else
      var front := ts[..|ts| - 1];
      var w0 := LongestDescription(front);
      assert forall i :: 0 <= i < |front| ==> front[i] == ts[i];
      var d := |ts[|ts| - 1].description|;
      if d > w0 then d else w0
  }

  function Spaces(n: nat): string
  {
    if n == 0 then "" else Spaces(n - 1) + " "
  }

  lemma {:induction false} SpacesAreBlank(n: nat)
    ensures |Spaces(n)| == n && forall i :: 0 <= i < n ==> Spaces(n)[i] == ' '
  {
    if n > 0 {
      SpacesAreBlank(n - 1);
    }
  }

  /** The number of spaces after a description: up to column width + 2, none if it is already longer. */
  function Padding(description: string, width: nat): nat
  {
    if |description| <= width + 2 then width + 2 - |description| else 0
  }

  /** One row: the description, its padding, the status name and a newline. */
  function Row(t: Task, width: nat): string
  {
    t.description + Spaces(Padding(t.description, width)) + StatusName(t.status) + "\n"
  }

  function Rows(ts: seq<Task>, width: nat): string
  {
    if ts == [] then ""
    else Rows(ts[..|ts| - 1], width) + Row(ts[|ts| - 1], width)
  }

  /** The whole table: one row per task, all padded to the longest description. */
  function Table(ts: seq<Task>): string
  {
    Rows(ts, LongestDescription(ts))
  }

  /**
   * The measuring pass of the formatter: the longest description. Like the
   * source it also works out a status column width, which nothing reads, so
   * the table depends only on the descriptions and statuses.
   */
  method ColumnWidth(tasks: seq<Task>) returns (longestDesc: nat)
    ensures longestDesc == LongestDescription(tasks)
    ensures forall i :: 0 <= i < |tasks| ==> |tasks[i].description| <= longestDesc
  {
    longestDesc := 0;
    var statusLength := 0;
    var i := 0;
    while i < |tasks|
      invariant 0 <= i <= |tasks|
      invariant longestDesc == LongestDescription(tasks[..i])
    {
      assert tasks[..i + 1][..i] == tasks[..i];
      var descLen := |tasks[i].description|;
      if descLen > longestDesc {
        longestDesc := descLen;
      }
      if statusLength != 11 {
        if tasks[i].status == InProgress {
          statusLength := 11;
        } else {
          statusLength := 4;
        }
      }
      i := i + 1;
    }
    assert tasks[..|tasks|] == tasks;
  }

  /** The formatter of the list command: one row per task, in order. */
  method FormatTasks(tasks: seq<Task>) returns (out: string)
    ensures out == Table(tasks)
  {
    var longestDesc := ColumnWidth(tasks);
    out := "";
    var i := 0;
    while i < |tasks|
      invariant 0 <= i <= |tasks|
      invariant out == Rows(tasks[..i], longestDesc)
    {
      out := WriteRow(out, tasks[i], longestDesc);
      RowsStep(tasks, i, longestDesc);
      i := i + 1;
    }
    assert tasks[..|tasks|] == tasks;
  }

  /** Writes one task's row to the end of the output: description, padding loop, status name, newline. */
  method WriteRow(out: string, t: Task, longestDesc: nat) returns (r: string)
    ensures r == out + Row(t, longestDesc)
  {
    r := out + t.description;
    var j := 0;
    while j < longestDesc + 2 - |t.description|
      invariant 0 <= j <= Padding(t.description, longestDesc)
      invariant r == out + t.description + Spaces(j)
    {
      r := r + " ";
      j := j + 1;
    }
    r := r + StatusName(t.status) + "\n";
  }

  /** The rows of the first i + 1 tasks are those of the first i followed by the row of task i. */
  lemma RowsStep(ts: seq<Task>, i: nat, width: nat)
    requires i < |ts|
    ensures Rows(ts[..i + 1], width) == Rows(ts[..i], width) + Row(ts[i], width)
  {
    assert ts[..i + 1][..i] == ts[..i];
  }

  /**
   * A row holds the description verbatim, then spaces up to column width + 2 (at
   * least two), then the status name and a newline: the status column starts at
   * the same offset on every row.
   */
  lemma RowLayout(t: Task, width: nat)
    requires |t.description| <= width
    ensures var r := Row(t, width);
      |r| == width + 2 + |StatusName(t.status)| + 1 &&
      r[..|t.description|] == t.description &&
      (forall j :: |t.description| <= j < width + 2 ==> r[j] == ' ') &&
      r[width] == ' ' && r[width + 1] == ' ' &&
      r[width + 2..] == StatusName(t.status) + "\n"
  {
    var r := Row(t, width);
    var d := t.description;
    var pad := Spaces(Padding(d, width));
    SpacesAreBlank(Padding(d, width));
    assert r == d + pad + (StatusName(t.status) + "\n");
    forall j | |d| <= j < width + 2 ensures r[j] == ' ' {
      assert r[j] == pad[j - |d|];
    }
  }

  /** The rows of a prefix of the tasks are a prefix of the rows of all of them. */
  lemma {:induction false} RowsPrefix(ts: seq<Task>, n: nat, width: nat)
    requires n <= |ts|
    ensures |Rows(ts[..n], width)| <= |Rows(ts, width)|
    ensures Rows(ts, width)[..|Rows(ts[..n], width)|] == Rows(ts[..n], width)
    decreases |ts| - n
  {
    if n == |ts| {
      assert ts[..n] == ts;
    } else {
      var front := ts[..|ts| - 1];
      assert front[..n] == ts[..n];
      RowsPrefix(front, n, width);
    }
  }

  /**
   * The k-th row of the table is the k-th task's row, and it starts right after
   * the rows of the tasks before it: the table lists the tasks in input order.
   */
  lemma TableRow(ts: seq<Task>, k: nat)
    requires k < |ts|
    ensures var w := LongestDescription(ts);
      var start := |Rows(ts[..k], w)|;
      start + |Row(ts[k], w)| <= |Table(ts)| &&
      Table(ts)[start..start + |Row(ts[k], w)|] == Row(ts[k], w)
  {
    var w := LongestDescription(ts);
    RowsStep(ts, k, w);
    RowsPrefix(ts, k + 1, w);
    SliceOfPrefix(Rows(ts, w), Rows(ts[..k], w), Row(ts[k], w));
  }

  /** Helper: when p + q begins s, q sits in s right after p. */
  lemma SliceOfPrefix(s: string, p: string, q: string)
    requires |p| + |q| <= |s| && s[..|p| + |q|] == p + q
    ensures s[|p|..|p| + |q|] == q
  {
  }

  /** How often c occurs in s. */
  function Occurrences(s: string, c: char): nat
  {
    if s == [] then 0 else Occurrences(s[..|s| - 1], c) + (if s[|s| - 1] == c then 1 else 0)
  }

  lemma {:induction false} OccurrencesAppend(a: string, b: string, c: char)
    ensures Occurrences(a + b, c) == Occurrences(a, c) + Occurrences(b, c)
    decreases |b|
  {
    if b == [] {
      assert a + b == a;
    } else {
      assert (a + b)[..|a + b| - 1] == a + b[..|b| - 1];
      OccurrencesAppend(a, b[..|b| - 1], c);
    }
  }

  lemma {:induction false} NoOccurrences(s: string, c: char)
    requires forall i :: 0 <= i < |s| ==> s[i] != c
    ensures Occurrences(s, c) == 0
  {
    if s != [] {
      NoOccurrences(s[..|s| - 1], c);
    }
  }

  /**
   * When no description contains a line break, the table has exactly one
   * newline per task; for no tasks it is the empty string.
   */
  lemma {:induction false} OneLinePerTask(ts: seq<Task>, width: nat)
    requires forall i :: 0 <= i < |ts| ==> '\n' !in ts[i].description
    ensures ts == [] ==> Rows(ts, width) == ""
    ensures Occurrences(Rows(ts, width), '\n') == |ts|
  {
    if ts != [] {
      var t := ts[|ts| - 1];
      OneLinePerTask(ts[..|ts| - 1], width);
      var d, pad, name := t.description, Spaces(Padding(t.description, width)), StatusName(t.status);
      var body := d + pad + name;
      assert Row(t, width) == body + "\n";
      SpacesAreBlank(Padding(t.description, width));
      assert '\n' !in d by {
        assert t == ts[|ts| - 1];
      }
      assert '\n' !in name by {
        match t.status
        case Todo =>
        case InProgress =>
        case Done =>
      }
      forall i | 0 <= i < |body| ensures body[i] != '\n' {
        if i < |d| {
          assert body[i] == d[i];
        } else if i < |d| + |pad| {
          assert body[i] == pad[i - |d|];
        } else {
          assert body[i] == name[i - |d| - |pad|];
        }
      }
      NoOccurrences(body, '\n');
      OccurrencesAppend(body, "\n", '\n');
      OccurrencesAppend(Rows(ts[..|ts| - 1], width), Row(t, width), '\n');
    }
  }
}
