/**
 Where the two forms of dot-segment removal part ways. On an absolute path they never do. On a relative one the
 literal rewriting puts a slash where the stack has none, as soon as a `..` pops the only segment there is.
 */
module RelativeDotSegments {
  import opened DotSegments
  import opened Text

  function Next(stack: seq<string>, head: string): seq<string> {
    if head == "." then stack else if head == ".." then Popped(stack) else stack + [head]
  }

  /** Some `..` meets a stack of exactly one segment. */
  predicate PopsLast(stack: seq<string>, segments: seq<string>)
    decreases |segments|
  {
    segments != [] && ((segments[0] == ".." && |stack| == 1) || PopsLast(Next(stack, segments[0]), segments[1..]))
  }

  lemma PopsLastStep(stack: seq<string>, head: string, later: seq<string>)
    ensures PopsLast(stack, [head] + later) <==> (head == ".." && |stack| == 1) || PopsLast(Next(stack, head), later)
  {
    assert ([head] + later)[1..] == later;
  }

  lemma NothingPops(stack: seq<string>)
    ensures !PopsLast(stack, [])
  {
  }

  /** Segments written without a leading slash. */
  function Bare(segments: seq<string>): string { if segments == [] then "" else Join(segments)[1..] }

  lemma JoinStarts(segments: seq<string>)
    requires segments != []
    ensures Join(segments) != "" && Join(segments) == "/" + Bare(segments)
  {
    assert segments == [segments[0]] + segments[1..];
    JoinHead(segments[0], segments[1..]);
  }

  lemma BareAppend(stack: seq<string>, head: string)
    requires stack != []
    ensures Bare(stack + [head]) == Bare(stack) + "/" + head
  {
    hide Join, Bare;
    JoinStarts(stack);
    JoinStarts(stack + [head]);
    JoinAppend(stack, head);
    assert "/" + Bare(stack + [head]) == "/" + (Bare(stack) + "/" + head);
    assert ("/" + Bare(stack + [head]))[1..] == ("/" + (Bare(stack) + "/" + head))[1..];
  }

  lemma BareOne(head: string)
    ensures Bare([head]) == head
  {
    JoinHead(head, []);
    assert [head] + [] == [head] && head + "" == head;
  }

  /** Cutting a bare output at its last slash pops a segment; with one segment, all of it goes. */
  lemma BareCutIsPop(stack: seq<string>)
    requires Plain(stack) && stack != []
    ensures Bare(stack)[..LastSlash(Bare(stack))] == Bare(Popped(stack))
  {
    hide LastSlash, Join, Bare, NoSlash;
    var rest, last := Popped(stack), stack[|stack| - 1];
    assert stack == rest + [last] && last in stack;
    if rest == [] {
      assert stack == [last];
      BareOne(last);
      LastSlashOfPlain(last);
      NothingBare();
    } else {
      BareAppend(rest, last);
      LastSlashOf(Bare(rest), last);
    }
  }

  lemma NothingBare()
    ensures Bare([]) == "" && Join([]) == ""
  {
  }

  /** What rewriting leaves: the same segments as the stack, bare unless a pop has emptied it. */
  ghost predicate LeavesSegments(text: string, stack: seq<string>, segments: seq<string>)
    requires segments != []
  {
    text == if PopsLast(stack, segments) then Join(Fold(stack, segments)) else Bare(Fold(stack, segments))
  }

  /** From a slash on, with segments already out. */
  lemma {:induction false} RewritingFromSlash(input: string, stack: seq<string>)
    requires input != "" && input[0] == '/' && stack != [] && Plain(stack)
    ensures LeavesSegments(Rewritten(input, Bare(stack)), stack, Split(input[1..]))
    decreases |input|
  {
    hide Fold, Split, Join, Bare, LastSlash, Turn, FirstSlash, PopsLast;
    var head := input[1..1 + FirstSlash(input[1..])];
    HeadExists(input);
    SplitOfHead(input, head);
    var more := 1 + |head| < |input|;
    var rest := if more then input[1 + |head|..] else "/";
    var later := if more then Split(input[2 + |head|..]) else [];
    assert [head] + [] == [head];
    FoldStep(stack, head, later);
    PopsLastStep(stack, head, later);
    NothingPops(Next(stack, head));
    assert more ==> rest[1..] == input[2 + |head|..];
    if head == "." {
      TurnDot(input, Bare(stack));
      RewritingFromSlash(rest, stack);
      if !more { LoneSlash(stack); }
    } else if head == ".." {
      TurnDotDot(input, Bare(stack));
      BareCutIsPop(stack);
      assert forall s :: s in Popped(stack) ==> s in stack;
      if |stack| == 1 {
        NothingBare();
        assert Popped(stack) == [];
        RewritingIsFold(rest, []);
        if !more { EmptyTail([]); }
      } else {
        RewritingFromSlash(rest, Popped(stack));
        if !more { LoneSlash(Popped(stack)); }
      }
    } else {
      TurnPlain(input, Bare(stack), head);
      BareAppend(stack, head);
      if more { RewritingFromSlash(rest, stack + [head]); } else { RewriteDone(Bare(stack + [head])); }
    }
  }

  lemma LoneSlash(stack: seq<string>)
    ensures Fold(stack, Split("/"[1..])) == stack + [""] && !PopsLast(stack, Split("/"[1..]))
  {
    EmptyTail(stack);
    assert "/"[1..] == "" && Split("") == [""] && [""][1..] == [];
  }

  // ----- the start of a path -----------------------------------------------

  /** The first segment of a path that does not begin with a slash. */
  lemma TurnOfFirst(input: string, head: string, tail: string)
    requires input == head + tail && input != "" && NoSlash(head) && (tail == "" || (tail[0] == '/' && head != ""))
    ensures Turn(input, "") == if IsDot(head) then (if tail == "" then "" else tail[1..], "") else (tail, head)
  {
    hide StartsWith, LastSlash, FirstSlash, Find;
    PrefixChars(input);
    PrefixCharsParent(input);
    DotPrefixes(input, head, tail);
    FirstSlashOf(head, tail);
    assert head != "" && input[0] == head[0];
    assert input[0..] == input;
    assert input[|head|..] == tail && "" + input[..|head|] == head;
  }

  /** Only a first segment that is a dot segment looks like one. */
  lemma DotPrefixes(input: string, head: string, tail: string)
    requires input == head + tail && NoSlash(head) && head != "" && (tail == "" || tail[0] == '/')
    ensures StartsWith(input, "../") <==> head == ".." && tail != ""
    ensures StartsWith(input, "./") <==> head == "." && tail != ""
    ensures head == ".." && tail != "" ==> input[3..] == tail[1..]
    ensures head == "." && tail != "" ==> input[2..] == tail[1..]
    ensures (input == "." || input == "..") <==> IsDot(head) && tail == ""
    ensures input[0] != '/'
  {
    assert forall i :: 0 <= i < |head| ==> input[i] == head[i] != '/';
    if tail != "" { assert input[|head|] == '/'; }
    if StartsWith(input, "../") { assert input[..3] == "../" && input[0] == '.' && input[1] == '.' && input[2] == '/'; }
    if StartsWith(input, "./") { assert input[..2] == "./" && input[0] == '.' && input[1] == '/'; }
    if head == ".." && tail != "" { assert input[..3] == "../"; }
    if head == "." && tail != "" { assert input[..2] == "./"; }
  }

  /** From the start, with nothing out yet. */
  lemma {:induction false} RewritingFromStart(input: string)
    ensures LeavesSegments(Rewritten(input, ""), [], Split(input))
    decreases |input|
  {
    hide Fold, Split, Join, Bare, LastSlash, Turn, FirstSlash, PopsLast;
    var k := FirstSlash(input);
    var head, tail := input[..k], input[k..];
    FirstCut(input);
    assert input == head + tail;
    SplitHead(head, tail);
    var later := if tail == "" then [] else Split(tail[1..]);
    assert [head] + [] == [head] && [] + [head] == [head];
    FoldStep([], head, later);
    PopsLastStep([], head, later);
    NothingPops(Next([], head));
    BareOne(head);
    BareOne("");
    assert [] + [""] == [""] && [""] + [] == [""];
    if head == "" && tail == "" {
      RewriteDone("");
    } else if head == "" {
      RewritingFromSlash(input, [""]);
    } else {
      TurnOfFirst(input, head, tail);
      if IsDot(head) {
        if tail != "" { RewritingFromStart(tail[1..]); } else { RewriteDone(""); }
      } else if tail != "" {
        assert Plain([head]);
        RewritingFromSlash(tail, [head]);
      } else {
        RewriteDone(head);
      }
    }
  }

  lemma FirstCut(input: string)
    ensures NoSlash(input[..FirstSlash(input)]) && (FirstSlash(input) < |input| ==> input[FirstSlash(input)] == '/')
  {
  }

  // ----- exactly when ------------------------------------------------------

  predicate Absolute(path: string) { path != "" && path[0] == '/' }

  /** For every path: the two forms agree iff it is absolute or no `..` pops the only segment there is. */
  lemma FormsAgreeIff(path: string)
    ensures Removed(path) == Rewritten(path, "") <==> Absolute(path) || !PopsLast([], Split(path))
  {
    hide Fold, Split, Join, PopsLast, Rewritten;
    if Absolute(path) {
      RewritingIsCanonical(path);
      CanonicalIsFixed(path);
    } else {
      RewritingFromStart(path);
      JoinStarts(Fold([], Split(path)));
    }
  }

  /** The shortest family on which they do not: one segment and its parent, whatever follows. */
  lemma ParentOfFirstDiffers(head: string, tail: string)
    requires head != "" && NoSlash(head) && !IsDot(head) && (tail == "" || tail[0] == '/')
    ensures Removed(head + "/.." + tail) != Rewritten(head + "/.." + tail, "")
  {
    hide Fold, Split, PopsLast, Rewritten, Removed;
    var path := head + "/.." + tail;
    assert path == head + ("/.." + tail) && ("/.." + tail)[1..] == ".." + tail;
    SplitHead(head, "/.." + tail);
    SplitHead("..", tail);
    var later := if tail == "" then [] else Split(tail[1..]);
    assert Split(".." + tail) == [".."] + later;
    PopsLastStep([], head, [".."] + later);
    assert [] + [head] == [head];
    PopsLastStep([head], "..", later);
    assert path[0] == head[0];
    FormsAgreeIff(path);
  }

  /** Its smallest member: for `a/..` the stack leaves nothing and the rewriting a slash. */
  lemma FormsDifferOnRelativePath()
    ensures Removed("a/..") == "" && Rewritten("a/..", "") == "/"
  {
    hide Fold, Split, Join, Rewritten, FirstSlash;
    assert "a/.." == "a" + "/.." && "/.."[1..] == "..";
    SplitHead("a", "/..");
    SplitHead("..", "");
    assert ".." + "" == "..";
    FoldStep([], "a", [".."]);
    FoldStep(["a"], "..", []);
    assert [] + ["a"] == ["a"] && [".."] + [] == [".."] && Popped(["a"]) + [""] == [""];
    JoinNothing();
    JoinHead("", []);
    assert [""] + [] == [""];
    RewritingFromStart("a/..");
    PopsLastStep([], "a", [".."]);
    PopsLastStep(["a"], "..", []);
  }
}
