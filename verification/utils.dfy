/**
 * The path prefix scanner and the segment splitter used by every
 * navigating operation of the file system (utility::validatePath and
 * utility::split).
 *
 * The scanner classifies a path as anchored at the root or at the current
 * directory, consumes a leading run of "./" and "../" steps (a final "."
 * or ".." included), counts the ".." steps and hands back the rest of the
 * path untouched. The splitter cuts that rest at every '/' and drops the
 * empty pieces.
 */
module PathUtils {
  import opened Errors

  /** Where resolution starts. `Invalid` is only the scanner's initial value. */
  datatype StartType = Invalid | Current | Root

  datatype PathPrefix = PathPrefix(start: StartType, ups: nat, rest: string)

  /** What the prefix loop consumed (as a count of ".." steps) and what it left. */
  datatype Consumed = Consumed(ups: nat, rest: string)

  /** `s` begins with the step "./". */
  predicate HereStep(s: string) {
    |s| >= 2 && s[0] == '.' && s[1] == '/'
  }

  /** `s` begins with the step "../". */
  predicate UpStep(s: string) {
    |s| >= 3 && s[0] == '.' && s[1] == '.' && s[2] == '/'
  }

  /** `s` begins with "..", followed by the end of the path or by '/'. */
  predicate FinalUp(s: string) {
    |s| >= 2 && s[0] == '.' && s[1] == '.' && (|s| == 2 || s[2] == '/')
  }

  /** `s` begins with ".", followed by the end of the path or by '/'. */
  predicate FinalHere(s: string) {
    |s| >= 1 && s[0] == '.' && (|s| == 1 || s[1] == '/')
  }

  /** The text at the head of `s` is one the prefix loop would consume. */
  predicate StartsWithStep(s: string) {
    HereStep(s) || UpStep(s) || FinalUp(s) || FinalHere(s)
  }

  /** The prefix loop, one step per call, on the unconsumed suffix of the path. */
  function ConsumeSteps(s: string): Consumed
    decreases |s|
  {
    if HereStep(s) then
      ConsumeSteps(s[2..])
    else if UpStep(s) then
      var c := ConsumeSteps(s[3..]);
      Consumed(c.ups + 1, c.rest)
    else if FinalUp(s) then
      // "../" is taken by the branch above, so this ".." ends the path and
      // the source's skip of a following '/' never applies.
      var c := ConsumeSteps(s[2..]);
      Consumed(c.ups + 1, c.rest)
    else if FinalHere(s) then
      // Likewise "./" is taken above: this "." ends the path.
      ConsumeSteps(s[1..])
    else
      Consumed(0, s)
  }

  /** `r` is the tail of `s`. */
  predicate EndsWith(s: string, r: string) {
    |r| <= |s| && forall i :: 0 <= i < |r| ==> r[i] == s[|s| - |r| + i]
  }

  /** What the loop leaves is a tail of the path that it would not consume further. */
  lemma {:induction false} ConsumeLeavesSuffix(s: string)
    ensures EndsWith(s, ConsumeSteps(s).rest)
    ensures !StartsWithStep(ConsumeSteps(s).rest)
    decreases |s|
  {
    var r := ConsumeSteps(s).rest;
    if HereStep(s) {
      ConsumeLeavesSuffix(s[2..]);
      DropSuffix(s, 2, r);
    } else if UpStep(s) {
      ConsumeLeavesSuffix(s[3..]);
      DropSuffix(s, 3, r);
    } else if FinalUp(s) {
      ConsumeLeavesSuffix(s[2..]);
      DropSuffix(s, 2, r);
    } else if FinalHere(s) {
      ConsumeLeavesSuffix(s[1..]);
      DropSuffix(s, 1, r);
    }
  }

  /** A tail of a tail is a tail. */
  lemma DropSuffix(s: string, k: nat, r: string)
    requires k <= |s| && EndsWith(s[k..], r)
    ensures EndsWith(s, r)
  {
    forall i | 0 <= i < |r|
      ensures r[i] == s[|s| - |r| + i]
    {
      assert r[i] == s[k..][|s| - k - |r| + i];
    }
  }

  /** utility::validatePath. */
  function ValidatePath(path: string): (r: Result<PathPrefix>)
    ensures r.Err? <==> path == ""
    ensures r.Err? ==> r.error == InvalidPath
    ensures r.Ok? ==> r.value.start != Invalid
    ensures r.Ok? ==> (r.value.start == Root <==> path[0] == '/')
    ensures r.Ok? ==> !StartsWithStep(r.value.rest)
  {
    if path == [] then
      Err(InvalidPath)
    else if path[0] == '/' then
      var c := ConsumeSteps(path[1..]);
      ConsumeLeavesSuffix(path[1..]);
      Ok(PathPrefix(Root, c.ups, c.rest))
    else
      var c := ConsumeSteps(path);
      ConsumeLeavesSuffix(path);
      Ok(PathPrefix(Current, c.ups, c.rest))
  }

  /** The rest validatePath hands back is the path's own tail. */
  lemma RestIsTail(path: string)
    requires path != ""
    ensures EndsWith(path, ValidatePath(path).value.rest)
  {
    if path[0] == '/' {
      ConsumeLeavesSuffix(path[1..]);
      DropSuffix(path, 1, ConsumeSteps(path[1..]).rest);
    } else {
      ConsumeLeavesSuffix(path);
    }
  }

  // ---------------------------------------------------------------------
  // An independent description of the consumed prefix: a run of "./" and
  // "../" steps, optionally closed by a final "." or ".." at the very end.
  // ---------------------------------------------------------------------

  datatype Step = Here | Up
  datatype Tail = NoTail | HereTail | UpTail

  function StepText(st: Step): string {
    match st
    case Here => "./"
    case Up => "../"
  }

  function TailText(t: Tail): string {
    match t
    case NoTail => ""
    case HereTail => "."
    case UpTail => ".."
  }

  function RenderSteps(steps: seq<Step>, tail: Tail): string {
    if steps == [] then TailText(tail) else StepText(steps[0]) + RenderSteps(steps[1..], tail)
  }

  function CountUps(steps: seq<Step>, tail: Tail): nat {
    if steps == [] then (if tail == UpTail then 1 else 0)
    else (if steps[0] == Up then 1 else 0) + CountUps(steps[1..], tail)
  }

  lemma ConsumeHere(t: string)
    ensures ConsumeSteps("./" + t) == ConsumeSteps(t)
  {
    var s := "./" + t;
    assert HereStep(s);
    assert s[2..] == t;
  }

  lemma ConsumeUp(t: string)
    ensures ConsumeSteps("../" + t) == Consumed(ConsumeSteps(t).ups + 1, ConsumeSteps(t).rest)
  {
    var s := "../" + t;
    assert s[1] == '.';
    assert !HereStep(s) && UpStep(s);
    assert s[3..] == t;
  }

  lemma ConsumeStop(s: string)
    requires !StartsWithStep(s)
    ensures ConsumeSteps(s) == Consumed(0, s)
  {
  }

  lemma ConsumeFinalDot()
    ensures ConsumeSteps(".") == Consumed(0, "")
  {
    var s := ".";
    assert !HereStep(s) && !UpStep(s) && !FinalUp(s);
    assert FinalHere(s) && s[1..] == "";
    ConsumeStop("");
  }

  lemma ConsumeFinalDotDot()
    ensures ConsumeSteps("..") == Consumed(1, "")
  {
    var s := "..";
    assert s[1] == '.';
    assert !HereStep(s) && !UpStep(s);
    assert FinalUp(s) && s[2..] == "";
    ConsumeStop("");
  }

  lemma RenderCons(steps: seq<Step>, tail: Tail, rest: string)
    requires steps != []
    ensures RenderSteps(steps, tail) + rest == StepText(steps[0]) + (RenderSteps(steps[1..], tail) + rest)
  {
  }

  lemma ConsumeTailOnly(tail: Tail, rest: string)
    requires !StartsWithStep(rest)
    requires tail != NoTail ==> rest == ""
    ensures ConsumeSteps(TailText(tail) + rest) == Consumed(CountUps([], tail), rest)
  {
    match tail
    case NoTail =>
      assert TailText(tail) + rest == rest;
      ConsumeStop(rest);
    case HereTail =>
      assert TailText(tail) + rest == ".";
      ConsumeFinalDot();
    case UpTail =>
      assert TailText(tail) + rest == "..";
      ConsumeFinalDotDot();
  }

  lemma PrependStep(st: Step, steps: seq<Step>, tail: Tail, rest: string)
    ensures RenderSteps([st] + steps, tail) + rest == StepText(st) + (RenderSteps(steps, tail) + rest)
    ensures CountUps([st] + steps, tail) == (if st == Up then 1 else 0) + CountUps(steps, tail)
  {
    assert ([st] + steps)[1..] == steps;
    RenderCons([st] + steps, tail, rest);
  }

  lemma ConsumeOneMore(steps: seq<Step>, tail: Tail, rest: string)
    requires steps != []
    requires ConsumeSteps(RenderSteps(steps[1..], tail) + rest) == Consumed(CountUps(steps[1..], tail), rest)
    ensures ConsumeSteps(RenderSteps(steps, tail) + rest) == Consumed(CountUps(steps, tail), rest)
  {
    var t := RenderSteps(steps[1..], tail) + rest;
    RenderCons(steps, tail, rest);
    ConsumeStepText(steps[0], t);
  }

  lemma ConsumeStepText(st: Step, t: string)
    ensures ConsumeSteps(StepText(st) + t) ==
              Consumed(ConsumeSteps(t).ups + (if st == Up then 1 else 0), ConsumeSteps(t).rest)
  {
    if st == Here {
      ConsumeHere(t);
    } else {
      ConsumeUp(t);
    }
  }

  /** Any run of steps followed by text that is not itself a step is consumed
      exactly, with one up-count per ".." and none per ".". */
  lemma {:induction false} ConsumeRendered(steps: seq<Step>, tail: Tail, rest: string)
    requires !StartsWithStep(rest)
    requires tail != NoTail ==> rest == ""
    ensures ConsumeSteps(RenderSteps(steps, tail) + rest) == Consumed(CountUps(steps, tail), rest)
    decreases |steps|
  {
    if steps == [] {
      ConsumeTailOnly(tail, rest);
    } else {
      ConsumeRendered(steps[1..], tail, rest);
      ConsumeOneMore(steps, tail, rest);
    }
  }

  /** One more step in front of a rendered run is consumed along with it. */
  lemma ExtendRendered(st0: Step, t: string, st: seq<Step>, tl: Tail)
    requires t == RenderSteps(st, tl) + ConsumeSteps(t).rest
    requires ConsumeSteps(t).ups == CountUps(st, tl)
    requires tl != NoTail ==> ConsumeSteps(t).rest == ""
    ensures StepText(st0) + t == RenderSteps([st0] + st, tl) + ConsumeSteps(StepText(st0) + t).rest
    ensures ConsumeSteps(StepText(st0) + t).ups == CountUps([st0] + st, tl)
    ensures tl != NoTail ==> ConsumeSteps(StepText(st0) + t).rest == ""
  {
    if st0 == Here {
      ConsumeHere(t);
    } else {
      ConsumeUp(t);
    }
    PrependStep(st0, st, tl, ConsumeSteps(t).rest);
  }

  /** The cases of the loop that consume no "./" or "../" step. */
  lemma ConsumedOnce(s: string) returns (steps: seq<Step>, tail: Tail)
    requires !HereStep(s) && !UpStep(s)
    ensures s == RenderSteps(steps, tail) + ConsumeSteps(s).rest
    ensures ConsumeSteps(s).ups == CountUps(steps, tail)
    ensures tail != NoTail ==> ConsumeSteps(s).rest == ""
  {
    if s == ".." {
      ConsumeFinalDotDot();
      steps, tail := [], UpTail;
    } else if s == "." {
      ConsumeFinalDot();
      steps, tail := [], HereTail;
    } else {
      ConsumeStop(s);
      steps, tail := [], NoTail;
    }
  }

  /** Conversely, whatever the loop consumes is such a run of steps. */
  lemma {:induction false} ConsumedIsRendered(s: string) returns (steps: seq<Step>, tail: Tail)
    ensures s == RenderSteps(steps, tail) + ConsumeSteps(s).rest
    ensures ConsumeSteps(s).ups == CountUps(steps, tail)
    ensures tail != NoTail ==> ConsumeSteps(s).rest == ""
    decreases |s|
  {
    if HereStep(s) {
      var t := s[2..];
      assert s == "./" + t;
      var st, tl := ConsumedIsRendered(t);
      ExtendRendered(Here, t, st, tl);
      steps, tail := [Here] + st, tl;
    } else if UpStep(s) {
      var t := s[3..];
      assert s == "../" + t;
      var st, tl := ConsumedIsRendered(t);
      ExtendRendered(Up, t, st, tl);
      steps, tail := [Up] + st, tl;
    } else {
      steps, tail := ConsumedOnce(s);
    }
  }

  /** The three paths of the scanner's own demonstration. */
  lemma WorkedExampleRoot()
    ensures ValidatePath("/../../.") == Ok(PathPrefix(Root, 2, ""))
  {
    var p := "/../../.";
    var steps := [Up, Up];
    assert RenderSteps(steps[1..], HereTail) == "../.";
    assert RenderSteps(steps, HereTail) == "../../.";
    assert p[1..] == RenderSteps(steps, HereTail) + "";
    ConsumeRendered(steps, HereTail, "");
    assert CountUps(steps[1..], HereTail) == 1;
    assert CountUps(steps, HereTail) == 2;
  }

  lemma WorkedExampleUps()
    ensures ValidatePath(".././../../file.txt") == Ok(PathPrefix(Current, 3, "file.txt"))
  {
    var p := ".././../../file.txt";
    assert "file.txt"[0] == 'f';
    var steps := [Up, Here, Up, Up];
    assert RenderSteps(steps[3..], NoTail) == "../";
    assert RenderSteps(steps[2..], NoTail) == "../../";
    assert RenderSteps(steps[1..], NoTail) == "./../../";
    assert RenderSteps(steps, NoTail) == ".././../../";
    assert p == RenderSteps(steps, NoTail) + "file.txt";
    ConsumeRendered(steps, NoTail, "file.txt");
    assert CountUps(steps[3..], NoTail) == 1;
    assert CountUps(steps[2..], NoTail) == 2;
    assert CountUps(steps[1..], NoTail) == 2;
    assert CountUps(steps, NoTail) == 3;
    assert ConsumeSteps(p) == Consumed(3, "file.txt");
    assert p[0] != '/';
  }

  /** The parent directory on its own. */
  lemma ScanDotDot()
    ensures ValidatePath("..") == Ok(PathPrefix(Current, 1, ""))
  {
    assert ".."[0] != '/';
    ConsumeFinalDotDot();
  }

  lemma WorkedExamplePlain()
    ensures ValidatePath("foo/bar") == Ok(PathPrefix(Current, 0, "foo/bar"))
  {
    assert "foo/bar"[0] == 'f';
    ConsumeStop("foo/bar");
  }

  // ---------------------------------------------------------------------
  // Splitting on '/'.
  // ---------------------------------------------------------------------

  /** A piece `split` can hand back: non-empty and free of '/'. */
  predicate IsSegment(x: string) {
    x != "" && '/' !in x
  }

  /** The pieces of `s` that follow the partial piece `cur`, empty ones dropped. */
  function SplitFrom(s: string, cur: string): (r: seq<string>)
    requires '/' !in cur
    ensures forall i :: 0 <= i < |r| ==> IsSegment(r[i])
    decreases |s|
  {
    if s == [] then
      (if cur == "" then [] else [cur])
    else if s[0] == '/' then
      (if cur == "" then [] else [cur]) + SplitFrom(s[1..], "")
    else
      SplitFrom(s[1..], cur + [s[0]])
  }

  /** utility::split: the non-empty '/'-separated pieces of `path`, in order. */
  function Split(path: string): (r: seq<string>)
    ensures forall i :: 0 <= i < |r| ==> IsSegment(r[i])
  {
    SplitFrom(path, "")
  }

  /** The pieces joined back with '/' between them. */
  function Join(segs: seq<string>): string {
    if segs == [] then ""
    else if |segs| == 1 then segs[0]
    else segs[0] + "/" + Join(segs[1..])
  }

  /** Every piece between '/'s, the empty ones kept (the reference for `Split`). */
  function FieldsFrom(s: string, cur: string): (r: seq<string>)
    ensures |r| > 0
    decreases |s|
  {
    if s == [] then [cur]
    else if s[0] == '/' then [cur] + FieldsFrom(s[1..], "")
    else FieldsFrom(s[1..], cur + [s[0]])
  }

  function Fields(s: string): seq<string> {
    FieldsFrom(s, "")
  }

  function NonEmpty(xs: seq<string>): seq<string> {
    if xs == [] then []
    else (if xs[0] == "" then [] else [xs[0]]) + NonEmpty(xs[1..])
  }

  lemma {:induction false} JoinFieldsFrom(s: string, cur: string)
    ensures Join(FieldsFrom(s, cur)) == cur + s
    decreases |s|
  {
    if s == [] {
    } else if s[0] == '/' {
      var f := FieldsFrom(s[1..], "");
      JoinFieldsFrom(s[1..], "");
      assert ([cur] + f)[1..] == f;
      assert s == "/" + s[1..];
    } else {
      JoinFieldsFrom(s[1..], cur + [s[0]]);
      assert cur + [s[0]] + s[1..] == cur + s;
    }
  }

  lemma {:induction false} SplitFromIsNonEmptyFields(s: string, cur: string)
    requires '/' !in cur
    ensures SplitFrom(s, cur) == NonEmpty(FieldsFrom(s, cur))
    decreases |s|
  {
    if s == [] {
      assert NonEmpty([cur]) == (if cur == "" then [] else [cur]) + NonEmpty([]);
    } else if s[0] == '/' {
      var f := FieldsFrom(s[1..], "");
      SplitFromIsNonEmptyFields(s[1..], "");
      assert ([cur] + f)[1..] == f;
    } else {
      SplitFromIsNonEmptyFields(s[1..], cur + [s[0]]);
    }
  }

  /** `split` keeps exactly the non-empty fields, and the fields joined with
      '/' give the input back; so re-joining the pieces gives the input with
      its empty pieces removed. */
  lemma SplitIsNonEmptyFields(s: string)
    ensures Split(s) == NonEmpty(Fields(s))
    ensures Join(Fields(s)) == s
  {
    SplitFromIsNonEmptyFields(s, "");
    JoinFieldsFrom(s, "");
  }

  lemma {:induction false} SplitFromSegment(seg: string, rest: string, cur: string)
    requires '/' !in cur && '/' !in seg
    ensures SplitFrom(seg + rest, cur) == SplitFrom(rest, cur + seg)
    decreases |seg|
  {
    if seg != [] {
      assert (seg + rest)[0] == seg[0];
      assert (seg + rest)[1..] == seg[1..] + rest;
      assert '/' !in seg[1..] by {
        forall i | 0 <= i < |seg[1..]|
          ensures seg[1..][i] != '/'
        {
          assert seg[1..][i] == seg[i + 1];
        }
      }
      SplitFromSegment(seg[1..], rest, cur + [seg[0]]);
      assert cur + [seg[0]] + seg[1..] == cur + seg;
    } else {
      assert seg + rest == rest;
      assert cur + seg == cur;
    }
  }

  /** Round trip: splitting pieces joined with '/' gives the pieces back. */
  lemma {:induction false} SplitJoin(segs: seq<string>)
    requires forall i :: 0 <= i < |segs| ==> IsSegment(segs[i])
    ensures Split(Join(segs)) == segs
    decreases |segs|
  {
    if segs == [] {
    } else if |segs| == 1 {
      SplitFromSegment(segs[0], "", "");
      assert segs[0] + "" == segs[0];
      assert "" + segs[0] == segs[0];
    } else {
      var tail := Join(segs[1..]);
      SplitJoin(segs[1..]);
      SplitFromSegment(segs[0], "/" + tail, "");
      assert segs[0] + "/" + tail == segs[0] + ("/" + tail);
      assert "" + segs[0] == segs[0];
      assert ("/" + tail)[1..] == tail;
      assert segs == [segs[0]] + segs[1..];
    }
  }
}
