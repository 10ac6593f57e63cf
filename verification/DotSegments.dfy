/**
 Removing `.` and `..` from a path, section 5.2.4 of RFC 3986, in the two forms the repository has: a
 stack of segments, and the literal rewriting of an input and an output string.
 */
module DotSegments {
  import opened SeparatedText
  import opened Text

  // ----- segments ----------------------------------------------------------

  /** The position of the first slash, or the length when there is none. */
  function FirstSlash(s: string): (k: nat)
    ensures k <= |s|
  {
    Find(s, '/')
  }

  function Split(s: string): (segments: seq<string>)
    ensures segments != []
  {
    Pieces(s, '/')
  }

  /** Every segment preceded by a slash. */
  function Join(segments: seq<string>): string {
    if segments == [] then "" else "/" + segments[0] + Join(segments[1..])
  }

  predicate NoSlash(s: string) { Lacks(s, '/') }

  predicate IsDot(s: string) { s == "." || s == ".." }

  ghost predicate Plain(segments: seq<string>) { forall s :: s in segments ==> NoSlash(s) }

  ghost predicate NoDots(segments: seq<string>) { forall s :: s in segments ==> !IsDot(s) }

  function Popped(stack: seq<string>): seq<string> { if stack == [] then [] else stack[..|stack| - 1] }

  /** What `.` drops, what `..` pops, and the empty segment either leaves behind at the end. */
  function Fold(stack: seq<string>, segments: seq<string>): (r: seq<string>)
    requires segments != []
    ensures r != []
    decreases |segments|
  {
    var head := segments[0];
    var next := if head == "." then stack else if head == ".." then Popped(stack) else stack + [head];
    if |segments| > 1 then Fold(next, segments[1..])
    else if IsDot(head) then next + [""]
    else next
  }

  /** The path without dot segments, for a path that begins with a slash. */
  function Canonical(path: string): string
    requires path != "" && path[0] == '/'
  {
    Join(Fold([], Split(path[1..])))
  }

  // ----- splitting and joining ---------------------------------------------

  lemma FirstSlashOf(a: string, b: string)
    requires NoSlash(a) && (b == "" || b[0] == '/')
    ensures FirstSlash(a + b) == |a|
  {
    FindOf(a, b, '/');
  }

  lemma {:induction false} SplitIsPlain(s: string)
    ensures Plain(Split(s))
    decreases |s|
  {
    var k := FirstSlash(s);
    if k < |s| { SplitIsPlain(s[k + 1..]); }
  }

  lemma SplitHead(head: string, tail: string)
    requires NoSlash(head) && (tail == "" || tail[0] == '/')
    ensures Split(head + tail) == if tail == "" then [head] else [head] + Split(tail[1..])
  {
    FirstSlashOf(head, tail);
    if tail == "" {
      assert head + tail == head;
    } else {
      assert (head + tail)[..|head|] == head;
      assert (head + tail)[|head| + 1..] == tail[1..];
    }
  }

  lemma {:induction false} SplitJoin(segments: seq<string>)
    requires segments != [] && Plain(segments)
    ensures Join(segments) != "" && Join(segments)[0] == '/'
    ensures Split(Join(segments)[1..]) == segments
    decreases |segments|
  {
    hide Split, NoSlash;
    var head, rest := segments[0], segments[1..];
    assert head in segments && forall s :: s in rest ==> s in segments;
    JoinHead(head, rest);
    assert segments == [head] + rest;
    hide Join;
    if rest != [] { SplitJoin(rest); }
    if rest == [] { JoinNothing(); }
    SplitHead(head, Join(rest));
  }

  lemma JoinNothing()
    ensures Join([]) == ""
  {
  }

  lemma JoinHead(head: string, rest: seq<string>)
    ensures var j := Join([head] + rest); j == "/" + head + Join(rest) && j[1..] == head + Join(rest)
  {
    assert ([head] + rest)[1..] == rest;
    assert "/" + head + Join(rest) == "/" + (head + Join(rest));
  }

  lemma {:induction false} JoinAppend(a: seq<string>, last: string)
    ensures Join(a + [last]) == Join(a) + "/" + last
  {
    if a == [] {
      assert a + [last] == [last];
      assert Join([last][1..]) == "";
    } else {
      assert (a + [last])[1..] == a[1..] + [last];
      JoinAppend(a[1..], last);
    }
  }

  // ----- what the fold leaves ----------------------------------------------

  lemma {:induction false} FoldIsClean(stack: seq<string>, segments: seq<string>)
    requires segments != [] && Plain(stack) && Plain(segments) && NoDots(stack)
    ensures Plain(Fold(stack, segments)) && NoDots(Fold(stack, segments))
    decreases |segments|
  {
    var head := segments[0];
    assert head in segments && forall s :: s in segments[1..] ==> s in segments;
    assert forall s :: s in Popped(stack) ==> s in stack;
    var next := if head == "." then stack else if head == ".." then Popped(stack) else stack + [head];
    if |segments| > 1 { FoldIsClean(next, segments[1..]); }
  }

  lemma {:induction false} FoldFixesClean(stack: seq<string>, segments: seq<string>)
    requires segments != [] && NoDots(segments)
    ensures Fold(stack, segments) == stack + segments
    decreases |segments|
  {
    assert segments[0] in segments && forall s :: s in segments[1..] ==> s in segments;
    if |segments| > 1 {
      FoldFixesClean(stack + [segments[0]], segments[1..]);
      assert stack + [segments[0]] + segments[1..] == stack + segments;
    } else {
      assert segments == [segments[0]];
    }
  }

  /** The canonical path begins with a slash, holds no dot segment, and is its own canonical path. */
  lemma CanonicalIsFixed(path: string)
    requires path != "" && path[0] == '/'
    ensures var c := Canonical(path);
            && c != "" && c[0] == '/'
            && NoDots(Split(c[1..])) && Canonical(c) == c
  {
    SplitIsPlain(path[1..]);
    FoldIsClean([], Split(path[1..]));
    var segments := Fold([], Split(path[1..]));
    SplitJoin(segments);
    FoldFixesClean([], segments);
    assert [] + segments == segments;
  }

  // ----- the segment stack -------------------------------------------------

  function Rendered(absolute: bool, segments: seq<string>): string {
    var text := if absolute || segments == [] then Join(segments) else Join(segments)[1..];
    if text == "" then (if absolute then "/" else "") else text
  }

  /** The loop over the segments of `path[start..]`, with its stack. */
  method FoldSegments(path: string, start: nat) returns (segments: seq<string>)
    requires start <= |path|
    ensures segments == Fold([], Split(path[start..]))
  {
    hide Split, Find, Fold;
    segments := [];
    var endedWithDotSegment := false;
    var i := start;
    while true
      invariant start <= i <= |path|
      invariant Fold([], Split(path[start..])) == Fold(segments, Split(path[i..]))
      decreases |path| - i
    {
      var end := i + FirstSlash(path[i..]);
      var segment := path[i..end];
      assert path[i..] == segment + path[end..];
      SplitHead(segment, path[end..]);
      FoldStep(segments, segment, if end == |path| then [] else Split(path[end..][1..]));
      assert [segment] + [] == [segment];
      if segment == "." {
        endedWithDotSegment := true;
      } else if segment == ".." {
        segments := Popped(segments);
        endedWithDotSegment := true;
      } else {
        segments := segments + [segment];
        endedWithDotSegment := false;
      }
      if end == |path| { break; }
      assert path[end..][1..] == path[end + 1..];
      i := end + 1;
    }
    if endedWithDotSegment { segments := segments + [""]; }
  }

  /** What the stack form makes of any path, relative or not. */
  function Removed(path: string): string {
    var absolute := path != "" && path[0] == '/';
    Rendered(absolute, Fold([], Split(if absolute then path[1..] else path)))
  }

  method RemoveDotSegmentsStack(path: string) returns (output: string)
    ensures output == Removed(path)
    ensures path != "" && path[0] == '/' ==> output == Canonical(path)
  {
    hide Fold, Split;
    var absolute := path != "" && path[0] == '/';
    var segments := FoldSegments(path, if absolute then 1 else 0);
    assert path[0..] == path;
    output := "";
    for k := 0 to |segments|
      invariant output == if absolute || k == 0 then Join(segments[..k]) else Join(segments[..k])[1..]
      invariant k > 0 ==> Join(segments[..k]) != ""
    {
      assert segments[..k + 1] == segments[..k] + [segments[k]];
      JoinAppend(segments[..k], segments[k]);
      if k > 0 || absolute { output := output + "/"; }
      output := output + segments[k];
    }
    assert segments[..|segments|] == segments;
    if output == "" { output := if absolute then "/" else ""; }
  }

  // ----- the literal rewriting ---------------------------------------------

  predicate StartsWith(s: string, prefix: string) { |prefix| <= |s| && s[..|prefix|] == prefix }

  /** The position of the last slash, or zero when there is none. */
  function LastSlash(s: string): (k: nat)
    ensures k <= |s|
  {
    var k := FindLast(s, '/');
    if k < 0 then 0 else k
  }

  /** One turn of the rewriting: what it leaves of the input, and the output. */
  function Turn(input: string, out: string): (r: (string, string))
    requires input != ""
    ensures |r.0| < |input|
  {
    if StartsWith(input, "../") then (input[3..], out)
    else if StartsWith(input, "./") then (input[2..], out)
    else if StartsWith(input, "/./") then ("/" + input[3..], out)
    else if input == "/." then ("/", out)
    else if StartsWith(input, "/../") then ("/" + input[4..], out[..LastSlash(out)])
    else if input == "/.." then ("/", out[..LastSlash(out)])
    else if input == "." || input == ".." then ("", out)
    else
      var start := if input[0] == '/' then 1 else 0;
      var slash := start + FirstSlash(input[start..]);
      (input[slash..], out + input[..slash])
  }

  /** The rewriting loop from a given input and output. */
  function Rewritten(input: string, out: string): string
    decreases |input|
  {
    if input == "" then out else var t := Turn(input, out); Rewritten(t.0, t.1)
  }

  method RemoveDotSegmentsRewriting(path: string) returns (out: string)
    ensures out == Rewritten(path, "")
    ensures path != "" && path[0] == '/' ==> out == Canonical(path)
    ensures path == "" ==> out == ""
  {
    hide LastSlash;
    var input := path;
    out := "";
    while input != ""
      invariant Rewritten(input, out) == Rewritten(path, "")
      decreases |input|
    {
      ghost var turn := Turn(input, out);
      assert Rewritten(input, out) == Rewritten(turn.0, turn.1);
      if StartsWith(input, "../") {
        input := input[3..];
      } else if StartsWith(input, "./") {
        input := input[2..];
      } else if StartsWith(input, "/./") {
        input := "/" + input[3..];
      } else if input == "/." {
        input := "/";
      } else if StartsWith(input, "/../") {
        input := "/" + input[4..];
        out := out[..LastSlash(out)];
      } else if input == "/.." {
        input := "/";
        out := out[..LastSlash(out)];
      } else if input == "." || input == ".." {
        input := "";
      } else {
        var start := if input[0] == '/' then 1 else 0;
        var slash := start + FirstSlash(input[start..]);
        out := out + input[..slash];
        input := input[slash..];
      }
      assert (input, out) == turn;
    }
    if path != "" && path[0] == '/' { RewritingIsCanonical(path); }
  }

  lemma LastSlashOf(a: string, b: string)
    requires NoSlash(b)
    ensures LastSlash(a + "/" + b) == |a|
  {
    FindLastOf(a, '/', b);
  }

  /** Cutting the output at its last slash pops the last segment. */
  lemma CutIsPop(stack: seq<string>)
    requires Plain(stack)
    ensures Join(stack)[..LastSlash(Join(stack))] == Join(Popped(stack))
  {
    if stack != [] {
      var rest, last := Popped(stack), stack[|stack| - 1];
      assert stack == rest + [last] && last in stack;
      JoinAppend(rest, last);
      LastSlashOf(Join(rest), last);
    }
  }

  lemma PrefixChars(s: string)
    ensures StartsWith(s, "../") ==> s[0] == '.'
    ensures StartsWith(s, "./") ==> s[0] == '.'
    ensures StartsWith(s, "/./") <==> |s| >= 3 && s[0] == '/' && s[1] == '.' && s[2] == '/'
  {
    if StartsWith(s, "/./") { assert s[..3][0] == '/' && s[..3][1] == '.' && s[..3][2] == '/'; }
  }

  lemma PrefixCharsParent(s: string)
    ensures StartsWith(s, "/../") <==> |s| >= 4 && s[0] == '/' && s[1] == '.' && s[2] == '.' && s[3] == '/'
  {
    if StartsWith(s, "/../") { assert s[..4][0] == '/' && s[..4][1] == '.' && s[..4][2] == '.' && s[..4][3] == '/'; }
  }

  /** The first segment of an input that begins with a slash. */
  ghost predicate HasHead(input: string, head: string) {
    && 1 + |head| <= |input| && input[0] == '/' && head == input[1..1 + |head|] && NoSlash(head)
    && (1 + |head| < |input| ==> input[1 + |head|] == '/')
  }

  lemma HeadExists(input: string)
    requires input != "" && input[0] == '/'
    ensures HasHead(input, input[1..1 + FirstSlash(input[1..])])
  {
    var tail := input[1..];
    var k := FirstSlash(tail);
    assert forall i :: 0 <= i < k ==> input[1..1 + k][i] == tail[i];
  }

  lemma SplitOfHead(input: string, head: string)
    requires HasHead(input, head)
    ensures Split(input[1..]) == if 1 + |head| < |input| then [head] + Split(input[2 + |head|..]) else [head]
    ensures FirstSlash(input[1..]) == |head|
  {
    hide Split, FirstSlash;
    assert input[1..] == head + input[1 + |head|..];
    SplitHead(head, input[1 + |head|..]);
    FirstSlashOf(head, input[1 + |head|..]);
    if 1 + |head| < |input| { assert input[1 + |head|..][1..] == input[2 + |head|..]; }
  }

  lemma TurnDot(input: string, out: string)
    requires HasHead(input, ".")
    ensures Turn(input, out) == (if 2 < |input| then input[2..] else "/", out)
  {
    hide StartsWith, LastSlash, FirstSlash;
    PrefixChars(input);
    if 2 < |input| { assert input[2..] == "/" + input[3..]; } else { assert input == "/."; }
  }

  lemma TurnDotDot(input: string, out: string)
    requires HasHead(input, "..")
    ensures Turn(input, out) == (if 3 < |input| then input[3..] else "/", out[..LastSlash(out)])
  {
    hide StartsWith, LastSlash, FirstSlash;
    PrefixChars(input);
    PrefixCharsParent(input);
    assert input[1..3] == "..";
    assert input[1] == '.' && input[2] == '.';
    if 3 < |input| { assert input[3..] == "/" + input[4..]; } else { assert input == "/.."; }
  }

  lemma TurnPlain(input: string, out: string, head: string)
    requires HasHead(input, head) && !IsDot(head)
    ensures Turn(input, out) == (input[1 + |head|..], out + "/" + head)
  {
    hide StartsWith, LastSlash, FirstSlash, Find, Split;
    PrefixChars(input);
    PrefixCharsParent(input);
    SplitOfHead(input, head);
    assert input[..1 + |head|] == "/" + head;
    assert out + ("/" + head) == out + "/" + head;
    DotHeads(input, head);
  }

  /** Only an input whose head is a dot segment looks like one. */
  lemma DotHeads(input: string, head: string)
    requires HasHead(input, head)
    ensures input == "/." || (|input| >= 3 && input[1] == '.' && input[2] == '/') ==> head == "."
    ensures input == "/.." || (|input| >= 4 && input[1] == '.' && input[2] == '.' && input[3] == '/') ==> head == ".."
    ensures input != "." && input != ".."
  {
    assert forall i :: 0 <= i < |head| ==> head[i] == input[1 + i];
  }

  lemma FoldStep(stack: seq<string>, head: string, later: seq<string>)
    ensures var next := if head == "." then stack else if head == ".." then Popped(stack) else stack + [head];
            Fold(stack, [head] + later) ==
            if later != [] then Fold(next, later) else if IsDot(head) then next + [""] else next
  {
    assert ([head] + later)[1..] == later;
  }

  /** From a slash on, rewriting is the fold over the segments still to come. */
  lemma {:induction false} RewritingIsFold(input: string, stack: seq<string>)
    requires input != "" && input[0] == '/' && Plain(stack)
    ensures Rewritten(input, Join(stack)) == Join(Fold(stack, Split(input[1..])))
    decreases |input|
  {
    hide Fold, Split, Join, LastSlash, Turn, FirstSlash;
    var head := input[1..1 + FirstSlash(input[1..])];
    HeadExists(input);
    SplitOfHead(input, head);
    var more := 1 + |head| < |input|;
    var rest := if more then input[1 + |head|..] else "/";
    var later := if more then Split(input[2 + |head|..]) else [];
    assert [head] + [] == [head];
    FoldStep(stack, head, later);
    assert more ==> rest[1..] == input[2 + |head|..];
    if head == "." {
      TurnDot(input, Join(stack));
      RewritingIsFold(rest, stack);
      if !more { EmptyTail(stack); }
    } else if head == ".." {
      TurnDotDot(input, Join(stack));
      CutIsPop(stack);
      assert forall s :: s in Popped(stack) ==> s in stack;
      RewritingIsFold(rest, Popped(stack));
      if !more { EmptyTail(Popped(stack)); }
    } else {
      TurnPlain(input, Join(stack), head);
      JoinAppend(stack, head);
      if more { RewritingIsFold(rest, stack + [head]); } else { RewriteDone(Join(stack + [head])); }
    }
  }

  lemma RewriteDone(out: string)
    ensures Rewritten("", out) == out
  {
  }

  /** A lone slash left over pushes the empty segment. */
  lemma EmptyTail(stack: seq<string>)
    ensures Fold(stack, Split("/"[1..])) == stack + [""]
  {
    assert "/"[1..] == "";
    assert Split("") == [""];
  }

  /** The two forms agree on every path that begins with a slash. */
  lemma RewritingIsCanonical(path: string)
    requires path != "" && path[0] == '/'
    ensures Rewritten(path, "") == Canonical(path)
  {
    RewritingIsFold(path, []);
  }

  lemma LastSlashOfPlain(s: string)
    requires NoSlash(s)
    ensures LastSlash(s) == 0
  {
    FindLastNone(s, '/');
  }
}
