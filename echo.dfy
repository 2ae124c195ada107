/** `echo` with a leading `-n` (Lesson_1/lesson1_my_echo.c). */
module Echo {

  /** The words joined by single spaces, with no space at either end. */
  function Join(ws: seq<string>): string {
    if |ws| == 0 then ""
    else if |ws| == 1 then ws[0]
    else Join(ws[..|ws| - 1]) + " " + ws[|ws| - 1]
  }

  /** Only `argv[1]` is looked at for `-n`. */
  predicate SuppressNewline(argv: seq<string>) {
    |argv| > 1 && argv[1] == "-n"
  }

  /** The words that are printed: everything after the program name and the
      optional `-n`. */
  function Printed(argv: seq<string>): seq<string> {
    var start := if SuppressNewline(argv) then 2 else 1;
    if start <= |argv| then argv[start..] else []
  }

  /** What the program writes to standard output. */
  function Output(argv: seq<string>): string {
    Join(Printed(argv)) + (if SuppressNewline(argv) then "" else "\n")
  }

  /** `main`: the flags `start` and `newline` are set first, then every word
      is printed, followed by a space unless it is the last argument. */
  method Echo(argv: seq<string>) returns (out: string)
    ensures out == Output(argv)
  {
    var argc := |argv|;
    var start := 1;
    var newline := true;
    if argc > 1 && argv[1] == "-n" {
      newline := false;
      start := 2;
    }
    out := "";
    var i := start;
    while i < argc
      invariant start <= i && (start < argc ==> i <= argc)
      invariant start < argc ==> out == Join(argv[start..i]) + (if start < i < argc then " " else "")
      invariant start >= argc ==> out == ""
    {
      assert argv[start..i + 1][..i - start] == argv[start..i];
      out := out + argv[i];
      if i < argc - 1 {
        out := out + " ";
      }
      i := i + 1;
    }
    if start < argc {
      assert argv[start..i] == argv[start..];
    }
    if newline {
      out := out + "\n";
    }
  }

  /** Joining one more word adds exactly one separating space. */
  lemma JoinSnoc(ws: seq<string>, w: string)
    requires |ws| > 0
    ensures Join(ws + [w]) == Join(ws) + " " + w
  {
    assert (ws + [w])[..|ws|] == ws;
  }

  /** Words that contain no space are separated by exactly one space each:
      the joined string holds |ws| - 1 spaces. */
  lemma {:induction false} JoinSpaces(ws: seq<string>)
    requires forall k :: 0 <= k < |ws| ==> ' ' !in ws[k]
    ensures multiset(Join(ws))[' '] == if |ws| == 0 then 0 else |ws| - 1
  {
    if |ws| > 1 {
      JoinSpaces(ws[..|ws| - 1]);
      var front := Join(ws[..|ws| - 1]);
      assert Join(ws) == front + [' '] + ws[|ws| - 1];
      assert multiset(Join(ws)) == multiset(front) + multiset{' '} + multiset(ws[|ws| - 1]);
    }
  }

  /** The newline is written exactly when `-n` was not given as argv[1];
      the printed text itself is the same either way. */
  lemma NewlineRule(argv: seq<string>)
    ensures !SuppressNewline(argv) ==> Output(argv) == Join(Printed(argv)) + "\n"
    ensures SuppressNewline(argv) ==> Output(argv) == Join(argv[2..])
  {
  }

  /** With no arguments the output is one newline; with `-n` alone it is empty;
      a later `-n` is printed literally. */
  lemma Examples()
    ensures Output(["echo"]) == "\n"
    ensures Output(["echo", "-n"]) == ""
    ensures Output(["echo", "a", "-n"]) == "a -n\n"
    ensures Output(["echo", "-n", "-n", "b"]) == "-n b"
  {
    assert Printed(["echo", "a", "-n"]) == ["a", "-n"];
    assert Printed(["echo", "-n", "-n", "b"]) == ["-n", "b"];
    assert ["-n", "b"][..1] == ["-n"];
    assert ["a", "-n"][..1] == ["a"];
  }
}
