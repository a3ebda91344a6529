/** How dojo._Url flattens "." and ".." in a path: the in-place loop over the segments, the
    stack machine it amounts to, and section 5.2.4 of RFC 3986. */
module DotSegments {
  import opened Strings

  const DOT := "."
  const UP := ".."

  // ------------------------------------------- the stack machine

  /** A ".." takes back the segment before it, unless that is another "..", the root of an
      absolute path, or missing. */
  predicate CanPop(done: seq<string>) {
    done != [] && done != [""] && done[|done| - 1] != UP
  }

  function Flattened(done: seq<string>, rest: seq<string>): (r: seq<string>)
    ensures done != [] || rest != [] ==> r != []
    decreases |rest|
  {
    if rest == [] then done
    else if rest[0] == DOT then
      if |rest| == 1 then done + [""] else Flattened(done, rest[1..])
    else if rest[0] == UP && CanPop(done) then
      var popped := done[..|done| - 1];
      if |rest| == 1 then popped + [""] else Flattened(popped, rest[1..])
    else Flattened(done + [rest[0]], rest[1..])
  }

  /** The position in the array is the height of the stack. */
  ghost function Resume(segs: seq<string>, j: nat): seq<string> {
    Flattened(segs[..Min(j, |segs|)], segs[Min(j, |segs|)..])
  }

  lemma SkipDot(segs: seq<string>, j: nat)
    requires j < |segs| && segs[j] == DOT
    ensures Resume(segs, j) == if j == |segs| - 1 then Resume(segs[j := ""], j + 1) else Resume(segs[..j] + segs[j + 1..], j)
  {
    var done, rest := segs[..j], segs[j..];
    if j == |segs| - 1 {
      assert segs[j := ""][..j + 1] == done + [""];
    } else {
      var segs' := segs[..j] + segs[j + 1..];
      assert segs'[..j] == done && segs'[j..] == rest[1..];
    }
  }

  lemma FlattenedUp(done: seq<string>, rest: seq<string>)
    requires rest != [] && rest[0] == UP && CanPop(done)
    ensures Flattened(done, rest) == if |rest| == 1 then Flattened(done[..|done| - 1] + [""], [])
                                     else Flattened(done[..|done| - 1], rest[1..])
  {
  }

  lemma SkipUp(segs: seq<string>, j: nat)
    requires 0 < j < |segs| && !(j == 1 && segs[0] == "") && segs[j] == UP && segs[j - 1] != UP
    ensures Resume(segs, j) == if j == |segs| - 1 then Resume(segs[..j][j - 1 := ""], j + 1)
                               else Resume(segs[..j - 1] + segs[j + 1..], j - 1)
  {
    hide Flattened;
    var done, rest := segs[..j], segs[j..];
    FlattenedUp(done, rest);
    if j == |segs| - 1 {
      var segs' := segs[..j][j - 1 := ""];
      assert segs'[..j] == done[..j - 1] + [""] && segs'[j..] == [];
    } else {
      var segs' := segs[..j - 1] + segs[j + 1..];
      assert segs'[..j - 1] == done[..j - 1] && segs'[j - 1..] == rest[1..];
    }
  }

  lemma KeepSegment(segs: seq<string>, j: nat)
    requires j < |segs| && segs[j] != DOT
    requires !(j > 0 && !(j == 1 && segs[0] == "") && segs[j] == UP && segs[j - 1] != UP)
    ensures Resume(segs, j) == Resume(segs, j + 1)
  {
    var done, rest := segs[..j], segs[j..];
    assert segs[..j + 1] == done + [rest[0]] && segs[j + 1..] == rest[1..];
  }

  lemma ResumeEnd(segs: seq<string>, j: nat)
    requires j >= |segs|
    ensures Resume(segs, j) == segs
  {
    assert segs[..|segs|] == segs;
  }

  lemma ResumeStart(segs: seq<string>)
    ensures Resume(segs, 0) == Flattened([], segs)
  {
    assert segs[0..] == segs && segs[..0] == [];
  }

  /** The loop: segments are spliced out of the array while an index walks along it. */
  method Flatten(path: seq<string>) returns (segs: seq<string>)
    ensures segs == Flattened([], path)
  {
    hide Flattened, Resume;
    segs := path;
    ResumeStart(path);
    var j := 0;
    while j < |segs|
      invariant 0 <= j && Resume(segs, j) == Flattened([], path)
      decreases |segs| - j
    {
      if segs[j] == DOT {
        SkipDot(segs, j);
        if j == |segs| - 1 {
          segs := segs[j := ""];
        } else {
          segs := segs[..j] + segs[j + 1..];
          j := j - 1;
        }
      } else if j > 0 && !(j == 1 && segs[0] == "") && segs[j] == UP && segs[j - 1] != UP {
        SkipUp(segs, j);
        if j == |segs| - 1 {
          segs := segs[..j];
          segs := segs[j - 1 := ""];
        } else {
          segs := segs[..j - 1] + segs[j + 1..];
          j := j - 2;
        }
      } else {
        KeepSegment(segs, j);
      }
      j := j + 1;
    }
    ResumeEnd(segs, j);
  }

  function Min(a: int, b: int): int {
    if a < b then a else b
  }

  // ------------------------------------------- normal forms

  /** No "." is left, and every ".." stands behind nothing but ".." and an empty root. */
  predicate Normal(segs: seq<string>) {
    && (forall i :: 0 <= i < |segs| ==> segs[i] != DOT)
    && forall i, j :: 0 <= i < j < |segs| && segs[j] == UP ==> segs[i] == UP || (i == 0 && segs[0] == "")
  }

  lemma {:induction false} FlattenedNormal(done: seq<string>, rest: seq<string>)
    requires Normal(done)
    ensures Normal(Flattened(done, rest))
    decreases |rest|
  {
    if rest != [] {
      if rest[0] == DOT {
        FlattenedNormal(done, rest[1..]);
      } else if rest[0] == UP && CanPop(done) {
        FlattenedNormal(done[..|done| - 1], rest[1..]);
      } else {
        FlattenedNormal(done + [rest[0]], rest[1..]);
      }
    }
  }

  lemma {:induction false} NormalUnchanged(done: seq<string>, rest: seq<string>)
    requires Normal(done + rest)
    ensures Flattened(done, rest) == done + rest
    decreases |rest|
  {
    if rest == [] {
      assert done + rest == done;
    } else {
      var s, n := done + rest, |done|;
      assert s[n] == rest[0];
      if rest[0] == UP && n > 0 {
        assert s[n - 1] == done[n - 1];
        assert done[n - 1] == UP || (n == 1 && done == [""]);
      }
      assert done + [rest[0]] + rest[1..] == s;
      NormalUnchanged(done + [rest[0]], rest[1..]);
    }
  }

  /** Flattening a second time changes nothing. */
  lemma FlattenIdempotent(path: seq<string>)
    ensures Flattened([], Flattened([], path)) == Flattened([], path)
  {
    var r := Flattened([], path);
    FlattenedNormal([], path);
    assert [] + r == r;
    NormalUnchanged([], r);
  }

  // ------------------------------------------- section 5.2.4 of RFC 3986

  /** Remove the last segment and its preceding "/", if any, from the output buffer. */
  function RemoveLast(output: string): string {
    if output == "" then ""
    else if output[|output| - 1] == '/' then output[..|output| - 1]
    else RemoveLast(output[..|output| - 1])
  }

  /** remove_dot_segments, its steps 2A to 2E over the input and output buffers. */
  function RemoveDotSegments(input: string, output: string): string
    decreases |input|, 1
  {
    if input == "" then output
    else if "../" <= input then RemoveDotSegments(input[3..], output)
    else if "./" <= input then RemoveDotSegments(input[2..], output)
    else if "/./" <= input then RemoveDotSegments(input[2..], output)
    else if input == "/." then RemoveDotSegments("/", output)
    else if "/../" <= input then RemoveDotSegments(input[3..], RemoveLast(output))
    else if input == "/.." then RemoveDotSegments("/", RemoveLast(output))
    else if input == "." || input == ".." then output
    else MoveFirst(input, output)
  }

  /** Step 2E: the first segment, with its slash if it has one, moves to the output. */
  function MoveFirst(input: string, output: string): string
    requires input != ""
    decreases |input|, 0
  {
    var n := if input[0] == '/' then 1 + Find(input[1..], '/') else Find(input, '/');
    RemoveDotSegments(input[n..], output + input[..n])
  }

  /** The same on the segments of an absolute path, the root left out. */
  function Removed(done: seq<string>, rest: seq<string>): seq<string>
    decreases |rest|
  {
    if rest == [] then done
    else if rest[0] == DOT then
      if |rest| == 1 then done + [""] else Removed(done, rest[1..])
    else if rest[0] == UP then
      var popped := if done == [] then [] else done[..|done| - 1];
      if |rest| == 1 then popped + [""] else Removed(popped, rest[1..])
    else Removed(done + [rest[0]], rest[1..])
  }

  /** Segments as the text of an absolute path. */
  function Text(segs: seq<string>): string {
    if segs == [] then "" else "/" + segs[0] + Text(segs[1..])
  }

  predicate Slashless(segs: seq<string>) {
    forall i :: 0 <= i < |segs| ==> '/' !in segs[i]
  }

  lemma {:induction false} TextAppend(segs: seq<string>, s: string)
    ensures Text(segs + [s]) == Text(segs) + "/" + s
  {
    if segs == [] {
      assert segs + [s] == [s];
    } else {
      assert (segs + [s])[1..] == segs[1..] + [s];
      TextAppend(segs[1..], s);
    }
  }

  lemma {:induction false} RemoveLastSegment(output: string, s: string)
    requires '/' !in s
    ensures RemoveLast(output + "/" + s) == output
    decreases |s|
  {
    var text := output + "/" + s;
    if s == "" {
      assert text[..|text| - 1] == output;
    } else {
      assert text[..|text| - 1] == output + "/" + s[..|s| - 1];
      RemoveLastSegment(output, s[..|s| - 1]);
    }
  }

  lemma RemoveLastText(done: seq<string>, s: string)
    requires '/' !in s
    ensures RemoveLast(Text(done + [s])) == Text(done)
  {
    hide RemoveLast, Text;
    TextAppend(done, s);
    RemoveLastSegment(Text(done), s);
  }

  /** The string algorithm and its form on segments agree. */
  lemma {:induction false} RemovedIsRemoveDotSegments(done: seq<string>, rest: seq<string>)
    requires Slashless(done) && Slashless(rest)
    ensures RemoveDotSegments(Text(rest), Text(done)) == Text(Removed(done, rest))
    decreases |rest|
  {
    if rest != [] {
      hide RemoveLast, Find, RemoveDotSegments;
      var s, more := rest[0], rest[1..];
      assert Text(rest) == "/" + s + Text(more);
      if s == DOT {
        if more == [] {
          LastDot(Text(done));
          TextAppend(done, "");
        } else {
          DotStep(more, Text(done));
          RemovedIsRemoveDotSegments(done, more);
        }
      } else if s == UP {
        var popped := if done == [] then [] else done[..|done| - 1];
        if done == [] {
          RemoveLastOfNothing();
        } else {
          assert done == popped + [done[|done| - 1]];
          RemoveLastText(popped, done[|done| - 1]);
        }
        if more == [] {
          LastUp(Text(done));
          TextAppend(popped, "");
        } else {
          UpStep(more, Text(done));
          RemovedIsRemoveDotSegments(popped, more);
        }
      } else {
        MoveSegment(s, more, Text(done));
        TextAppend(done, s);
        RemovedIsRemoveDotSegments(done + [s], more);
      }
    } else {
      NothingLeft(Text(done));
    }
  }

  lemma NothingLeft(output: string)
    ensures RemoveDotSegments("", output) == output
  {
  }

  lemma RemoveLastOfNothing()
    ensures RemoveLast("") == ""
  {
  }

  lemma LastDot(output: string)
    ensures RemoveDotSegments("/" + DOT + "", output) == output + "/" + ""
  {
    hide RemoveLast, Find;
    var input := "/" + DOT + "";
    assert input == "/." && input[0] == '/' && input[1] == '.';
    LastSlash(output);
  }

  lemma LastUp(output: string)
    ensures RemoveDotSegments("/" + UP + "", output) == RemoveLast(output) + "/" + ""
  {
    hide RemoveLast, Find;
    var input := "/" + UP + "";
    assert input == "/.." && input[0] == '/' && input[1] == '.' && input[2] == '.';
    LastSlash(RemoveLast(output));
  }

  lemma TextStarts(segs: seq<string>)
    requires segs != []
    ensures Text(segs) != "" && Text(segs)[0] == '/'
  {
  }

  lemma DotStep(more: seq<string>, output: string)
    requires more != []
    ensures RemoveDotSegments("/" + DOT + Text(more), output) == RemoveDotSegments(Text(more), output)
  {
    hide Find, RemoveLast, Text;
    TextStarts(more);
    var input := "/" + DOT + Text(more);
    assert input[0] == '/' && input[1] == '.' && input[2] == Text(more)[0] == '/';
    assert input[2..] == Text(more);
  }

  lemma UpStep(more: seq<string>, output: string)
    requires more != []
    ensures RemoveDotSegments("/" + UP + Text(more), output) == RemoveDotSegments(Text(more), RemoveLast(output))
  {
    hide Find, RemoveLast, Text;
    TextStarts(more);
    var input := "/" + UP + Text(more);
    assert input[0] == '/' && input[1] == '.' && input[2] == '.' && input[3] == Text(more)[0] == '/';
    assert input[3..] == Text(more);
  }

  lemma LastSlash(output: string)
    ensures RemoveDotSegments("/", output) == output + "/"
  {
    assert "/"[1..] == "" && RemoveDotSegments("", output + "/") == output + "/";
  }

  /** The first segment of a text is what stands before its first slash. */
  lemma FirstSegment(s: string, more: seq<string>)
    requires '/' !in s
    ensures Find(s + Text(more), '/') == |s|
  {
    if more == [] {
      assert s + Text(more) == s;
      FindNone(s, '/');
    } else {
      assert Text(more)[0] == '/';
      FindIn(s, Text(more), '/');
    }
  }

  lemma SegmentFollowed(s: string, more: seq<string>, d: string)
    requires '/' !in s && '/' !in d && d + "/" <= s + Text(more)
    ensures s == d
  {
    var text := s + Text(more);
    FirstSegment(s, more);
    FindIn(d, text[|d|..], '/');
    assert text == d + text[|d|..];
  }

  lemma SegmentAlone(s: string, more: seq<string>, d: string)
    requires '/' !in s && '/' !in d && d == s + Text(more)
    ensures s == d
  {
    FirstSegment(s, more);
    FindNone(d, '/');
  }

  lemma NotADot(s: string, more: seq<string>)
    requires '/' !in s && s != DOT && s != UP
    ensures var input := "/" + s + Text(more);
            && !("/./" <= input) && !("/../" <= input) && input != "/." && input != "/.."
  {
    hide Text;
    NotThisDot(s, more, DOT);
    NotThisDot(s, more, UP);
    assert "/" + DOT + "/" == "/./" && "/" + UP + "/" == "/../";
    assert "/" + DOT == "/." && "/" + UP == "/..";
  }

  lemma NotThisDot(s: string, more: seq<string>, d: string)
    requires '/' !in s && '/' !in d && s != d
    ensures var input := "/" + s + Text(more); !("/" + d + "/" <= input) && input != "/" + d
  {
    hide Text;
    var input := "/" + s + Text(more);
    assert input[1..] == s + Text(more);
    if "/" + d + "/" <= input {
      assert input[1..][..|d| + 1] == ("/" + d + "/")[1..] == d + "/";
      SegmentFollowed(s, more, d);
    }
    if input == "/" + d {
      assert d == input[1..];
      SegmentAlone(s, more, d);
    }
  }

  lemma StartsOtherwise(input: string, d: string)
    requires input != "" && d != "" && input[0] != d[0]
    ensures !(d <= input) && input != d
  {
  }

  /** Step 2E applies when none of 2A to 2D does. */
  lemma MoveBranch(input: string, output: string)
    requires input != "" && input[0] == '/'
    requires !("/./" <= input) && !("/../" <= input) && input != "/." && input != "/.."
    ensures RemoveDotSegments(input, output) == MoveFirst(input, output)
  {
    hide MoveFirst, RemoveLast;
    StartsOtherwise(input, "../");
    StartsOtherwise(input, "./");
    StartsOtherwise(input, ".");
    StartsOtherwise(input, "..");
  }

  lemma SegmentCut(s: string, tail: string, output: string)
    ensures var input, n := "/" + s + tail, 1 + |s|;
            && input != "" && input[0] == '/' && input[1..] == s + tail
            && input[n..] == tail && output + input[..n] == output + "/" + s
  {
  }

  lemma MoveSegment(s: string, more: seq<string>, output: string)
    requires '/' !in s && s != DOT && s != UP
    ensures RemoveDotSegments("/" + s + Text(more), output) == RemoveDotSegments(Text(more), output + "/" + s)
  {
    hide Text, Find, RemoveDotSegments;
    SegmentCut(s, Text(more), output);
    FirstSegment(s, more);
    NotADot(s, more);
    MoveBranch("/" + s + Text(more), output);
  }

  // ------------------------------------------- where the two agree

  /** A ".." of an absolute path meets nothing to take back. */
  predicate Climbs(done: seq<string>, rest: seq<string>)
    decreases |rest|
  {
    rest != [] &&
    if rest[0] == DOT then Climbs(done, rest[1..])
    else if rest[0] == UP then done == [] || Climbs(done[..|done| - 1], rest[1..])
    else Climbs(done + [rest[0]], rest[1..])
  }

  lemma {:induction false} AgreeUnlessClimbing(done: seq<string>, rest: seq<string>)
    requires UP !in done && !Climbs(done, rest)
    ensures Flattened([""] + done, rest) == [""] + Removed(done, rest)
    decreases |rest|
  {
    if rest != [] {
      var s := rest[0];
      if s == DOT {
        assert [""] + done + [""] == [""] + (done + [""]);
        AgreeUnlessClimbing(done, rest[1..]);
      } else if s == UP {
        var popped := done[..|done| - 1];
        assert ([""] + done)[..|done|] == [""] + popped;
        assert ([""] + done)[|done|] == done[|done| - 1];
        assert [""] + popped + [""] == [""] + (popped + [""]);
        AgreeUnlessClimbing(popped, rest[1..]);
      } else {
        assert [""] + done + [s] == [""] + (done + [s]);
        AgreeUnlessClimbing(done + [s], rest[1..]);
      }
    }
  }

  lemma {:induction false} UpStays(done: seq<string>, rest: seq<string>)
    requires UP in done
    ensures UP in Flattened(done, rest)
    decreases |rest|
  {
    if rest != [] {
      if rest[0] == DOT {
        UpStays(done, rest[1..]);
      } else if rest[0] == UP && CanPop(done) {
        var popped := done[..|done| - 1];
        assert done == popped + [done[|done| - 1]];
        UpStays(popped, rest[1..]);
      } else {
        UpStays(done + [rest[0]], rest[1..]);
      }
    }
  }

  lemma {:induction false} ClimbingShows(done: seq<string>, rest: seq<string>)
    requires UP !in done && Climbs(done, rest)
    ensures UP in Flattened([""] + done, rest)
    decreases |rest|
  {
    var s := rest[0];
    if s == DOT {
      ClimbingShows(done, rest[1..]);
    } else if s == UP {
      if done == [] {
        assert [""] + [] == [""];
        UpStays([""] + [UP], rest[1..]);
      } else {
        var popped := done[..|done| - 1];
        assert ([""] + done)[..|done|] == [""] + popped;
        assert ([""] + done)[|done|] == done[|done| - 1];
        ClimbingShows(popped, rest[1..]);
      }
    } else {
      assert [""] + done + [s] == [""] + (done + [s]);
      ClimbingShows(done + [s], rest[1..]);
    }
  }

  lemma {:induction false} RemovedHasNoUp(done: seq<string>, rest: seq<string>)
    requires UP !in done
    ensures UP !in Removed(done, rest)
    ensures rest != [] ==> Removed(done, rest) != []
    decreases |rest|
  {
    if rest != [] {
      if rest[0] == DOT {
        RemovedHasNoUp(done, rest[1..]);
      } else if rest[0] == UP {
        RemovedHasNoUp(if done == [] then [] else done[..|done| - 1], rest[1..]);
      } else {
        RemovedHasNoUp(done + [rest[0]], rest[1..]);
      }
    }
  }

  lemma {:induction false} StaySlashless(done: seq<string>, rest: seq<string>)
    requires Slashless(done) && Slashless(rest)
    ensures Slashless(Flattened(done, rest))
    decreases |rest|
  {
    if rest != [] {
      if rest[0] == DOT {
        StaySlashless(done, rest[1..]);
      } else if rest[0] == UP && CanPop(done) {
        StaySlashless(done[..|done| - 1], rest[1..]);
      } else {
        StaySlashless(done + [rest[0]], rest[1..]);
      }
    }
  }

  lemma {:induction false} RemovedSlashless(done: seq<string>, rest: seq<string>)
    requires Slashless(done) && Slashless(rest)
    ensures Slashless(Removed(done, rest))
    decreases |rest|
  {
    if rest != [] {
      if rest[0] == DOT {
        RemovedSlashless(done, rest[1..]);
      } else if rest[0] == UP {
        RemovedSlashless(if done == [] then [] else done[..|done| - 1], rest[1..]);
      } else {
        RemovedSlashless(done + [rest[0]], rest[1..]);
      }
    }
  }

  // ------------------------------------------- paths as text

  /** What becomes of a path: split, flattened, joined. */
  function FlatPath(path: string): string {
    Join(Flattened([], Split(path, '/')), "/")
  }

  /** A flattened path is in normal form, and flattening it again changes nothing. */
  lemma FlatPathIdempotent(path: string)
    ensures Normal(Split(FlatPath(path), '/'))
    ensures FlatPath(FlatPath(path)) == FlatPath(path)
  {
    var segs := Split(path, '/');
    var flat := Flattened([], segs);
    JoinSplit(path, '/');
    StaySlashless([], segs);
    SplitJoin(flat, '/');
    FlattenedNormal([], segs);
    FlattenIdempotent(segs);
  }

  lemma {:induction false} TextIsJoin(segs: seq<string>)
    requires segs != []
    ensures Text(segs) == "/" + Join(segs, "/") == Join([""] + segs, "/")
  {
    assert ([""] + segs)[1..] == segs;
    if |segs| == 1 {
      assert "/" + segs[0] + "" == "/" + segs[0];
    } else {
      TextIsJoin(segs[1..]);
      assert "/" + segs[0] + ("/" + Join(segs[1..], "/")) == "/" + (segs[0] + "/" + Join(segs[1..], "/"));
    }
    assert "" + "/" + Join(segs, "/") == "/" + Join(segs, "/");
  }

  lemma AbsoluteSplit(path: string)
    requires path != "" && path[0] == '/'
    ensures var rest := Split(path[1..], '/');
            && Split(path, '/') == [""] + rest && Slashless(rest) && Text(rest) == path
            && Flattened([], Split(path, '/')) == Flattened([""], rest)
  {
    var rest := Split(path[1..], '/');
    JoinSplit(path[1..], '/');
    TextIsJoin(rest);
    assert path == "" + ['/'] + path[1..];
    SplitFirst("", path[1..], '/');
    assert ([""] + rest)[1..] == rest && [] + [""] == [""];
  }

  /** On absolute paths the result is that of RFC 3986 exactly if no ".." climbs above the
      root: the RFC drops such a segment, the library keeps it. */
  lemma AgreesWithRfc3986(path: string)
    requires path != "" && path[0] == '/'
    ensures FlatPath(path) == RemoveDotSegments(path, "") <==> !Climbs([], Split(path[1..], '/'))
  {
    hide Flattened, Removed, RemoveDotSegments, Climbs;
    var rest := Split(path[1..], '/');
    AbsoluteSplit(path);
    RemovedIsRemoveDotSegments([], rest);
    RemovedHasNoUp([], rest);
    var removed := Removed([], rest);
    TextIsJoin(removed);
    assert [""] + [] == [""];
    if !Climbs([], rest) {
      AgreeUnlessClimbing([], rest);
    } else {
      ClimbingShows([], rest);
      var flat := Flattened([""], rest);
      assert UP in flat && UP !in [""] + removed;
      StaySlashless([""], rest);
      RemovedSlashless([], rest);
      SplitJoin(flat, '/');
      SplitJoin([""] + removed, '/');
    }
  }

  lemma ClimbingPathSplits()
    ensures Split("/../a", '/') == ["", UP, "a"] && Join(["", UP, "a"], "/") == "/../a"
  {
    hide Split;
    var segs := ["", UP, "a"];
    assert segs[1..] == [UP, "a"] && [UP, "a"][1..] == ["a"];
    assert [UP, "a"][1..] == ["a"] && Join(["a"], "/") == "a";
    assert Join([UP, "a"], "/") == UP + "/" + "a" == "../a";
    assert Join(segs, "/") == "" + "/" + "../a" == "/../a";
    assert ['/'] == "/";
    SplitJoin(segs, '/');
  }

  lemma ClimbingPathKept()
    ensures Flattened([], ["", UP, "a"]) == ["", UP, "a"]
  {
    hide Flattened;
    var segs := ["", UP, "a"];
    assert [] + segs == segs;
    NormalUnchanged([], segs);
  }

  lemma ClimbingPathDropped()
    ensures RemoveDotSegments("/../a", "") == "/a"
  {
    hide RemoveDotSegments;
    assert ["a"][1..] == [] && Text(["a"]) == "/" + "a" + "" == "/a";
    assert [UP, "a"][1..] == ["a"] && Text([UP, "a"]) == "/" + UP + "/a" == "/../a";
    assert [] + ["a"] == ["a"];
    RemovedIsRemoveDotSegments([], [UP, "a"]);
  }

  /** A path that climbs: the library keeps the "..", the RFC drops it. */
  lemma ClimbingExample()
    ensures FlatPath("/../a") == "/../a" && RemoveDotSegments("/../a", "") == "/a"
  {
    hide RemoveDotSegments, Split, Flattened, Join;
    ClimbingPathSplits();
    ClimbingPathKept();
    ClimbingPathDropped();
  }

  // ------------------------------------------- relative paths

  function Ups(n: nat): seq<string> {
    seq(n, _ => UP)
  }

  /** How many of the ".." find nothing to take back, above a stack of this height. */
  function Excess(height: nat, rest: seq<string>): nat
    decreases |rest|
  {
    if rest == [] then 0
    else if rest[0] == DOT then Excess(height, rest[1..])
    else if rest[0] != UP then Excess(height + 1, rest[1..])
    else if height == 0 then 1 + Excess(0, rest[1..])
    else Excess(height - 1, rest[1..])
  }

  /** Empty segments only at the end, and no ".." there. */
  predicate Ordinary(rest: seq<string>) {
    && (forall i :: 0 <= i < |rest| - 1 ==> rest[i] != "")
    && (rest != [] ==> rest[|rest| - 1] != UP)
  }

  lemma UpsPlus(n: nat, done: seq<string>, s: string)
    ensures Ups(n) + done + [s] == Ups(n) + (done + [s])
    ensures Ups(n) + [UP] == Ups(n + 1) && Ups(n) + [] == Ups(n)
    ensures done != [] ==> (Ups(n) + done)[..n + |done| - 1] == Ups(n) + done[..|done| - 1]
  {
  }

  lemma UpsPop(n: nat, done: seq<string>)
    requires UP !in done && forall i :: 0 <= i < |done| ==> done[i] != ""
    ensures CanPop(Ups(n) + done) <==> done != []
  {
    var all := Ups(n) + done;
    if done != [] {
      assert all[|all| - 1] == done[|done| - 1];
      assert all[0] == if n > 0 then UP else done[0];
    } else if n > 0 {
      assert all[|all| - 1] == UP;
    }
  }

  lemma {:induction false} ExcessStays(n: nat, done: seq<string>, rest: seq<string>)
    requires UP !in done && (forall i :: 0 <= i < |done| ==> done[i] != "") && Ordinary(rest)
    ensures Flattened(Ups(n) + done, rest) == Ups(n + Excess(|done|, rest)) + Removed(done, rest)
    decreases |rest|
  {
    if rest != [] {
      hide CanPop, Ups, Flattened, Removed;
      var s, more := rest[0], rest[1..];
      if |rest| == 1 {
        assert rest == [s];
        OneMore(n, done, s);
        UpsPlus(n, done, s);
      } else {
        FlattenedMore(Ups(n) + done, rest);
        RemovedMore(done, rest);
        UpsPop(n, done);
        UpsPlus(n, done, s);
        if s == DOT {
          ExcessStays(n, done, more);
        } else if s == UP && done == [] {
          ExcessStays(n + 1, [], more);
          UpsPlus(n + 1, [], "");
        } else if s == UP {
          ExcessStays(n, done[..|done| - 1], more);
        } else {
          ExcessStays(n, done + [s], more);
        }
      }
    }
  }

  lemma FlattenedMore(done: seq<string>, rest: seq<string>)
    requires |rest| > 1
    ensures Flattened(done, rest) ==
            if rest[0] == DOT then Flattened(done, rest[1..])
            else if rest[0] == UP && CanPop(done) then Flattened(done[..|done| - 1], rest[1..])
            else Flattened(done + [rest[0]], rest[1..])
  {
  }

  lemma RemovedMore(done: seq<string>, rest: seq<string>)
    requires |rest| > 1
    ensures Removed(done, rest) ==
            if rest[0] == DOT then Removed(done, rest[1..])
            else if rest[0] == UP then Removed(if done == [] then [] else done[..|done| - 1], rest[1..])
            else Removed(done + [rest[0]], rest[1..])
  {
  }

  lemma OneMore(n: nat, done: seq<string>, s: string)
    requires s != UP
    ensures Flattened(Ups(n) + done, [s]) == Ups(n) + Removed(done, [s]) && Excess(|done|, [s]) == 0
  {
    var t := if s == DOT then "" else s;
    assert [s][1..] == [];
    assert Ups(n) + done + [t] == Ups(n) + (done + [t]);
  }

  /** On ordinary relative paths: what the RFC makes of the segments, behind as many ".." as
      climb above the start. */
  lemma RelativePath(path: seq<string>)
    requires Ordinary(path)
    ensures Flattened([], path) == Ups(Excess(0, path)) + Removed([], path)
  {
    assert Ups(0) + [] == [];
    ExcessStays(0, [], path);
  }
}
