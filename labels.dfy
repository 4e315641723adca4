/**
 * Figure labels of `handleFigures`: the base name of an image path or URL and the
 * label-collision map that numbers repeated base names.
 */
module Labels {
  import opened Tree

  /** One answer of the collision map: the label handed out and the counts afterwards. */
  datatype Step = Step(given: string, counts: map<string, nat>)

  /**
   * `resolveFigureLabelCollision`: the first request for a label returns it unchanged
   * and records 1; a later request returns `label-k`, k being the recorded count,
   * and increments the count.
   */
  function ResolveLabel(counts: map<string, nat>, base: string): (r: Step)
    ensures base !in counts ==> r == Step(base, counts[base := 1])
    ensures base in counts ==> r.given == base + "-" + NatToString(counts[base])
  {
    if base in counts then
      Step(base + "-" + NatToString(counts[base]), counts[base := counts[base] + 1])
    else
      Step(base, counts[base := 1])
  }

  /** `labelCollisionMap`, allocated once per run of `handleFigures`. */
  class LabelCollisionMap {
    var counts: map<string, nat>

    constructor ()
      ensures counts == map[]
    {
      counts := map[];
    }

    method Resolve(base: string) returns (r: string)
      modifies this
      ensures Step(r, counts) == ResolveLabel(old(counts), base)
    {
      if base in counts {
        var index := counts[base];
        counts := counts[base := index + 1];
        r := base + "-" + NatToString(index);
      } else {
        counts := counts[base := 1];
        r := base;
      }
    }
  }

  /** All labels handed out for a sequence of requests, and the counts afterwards. */
  datatype Resolved = Resolved(labels: seq<string>, counts: map<string, nat>)

  function ResolveAll(counts: map<string, nat>, requests: seq<string>): (r: Resolved)
    ensures |r.labels| == |requests|
  {
    if requests == [] then Resolved([], counts)
    else
      var prior := ResolveAll(counts, requests[..|requests| - 1]);
      var step := ResolveLabel(prior.counts, requests[|requests| - 1]);
      Resolved(prior.labels + [step.given], step.counts)
  }

  /** Two runs of requests in a row are one run of their concatenation. */
  lemma {:induction false} ResolveAllAppend(counts: map<string, nat>, xs: seq<string>, ys: seq<string>)
    ensures ResolveAll(counts, xs + ys).labels == ResolveAll(counts, xs).labels + ResolveAll(ResolveAll(counts, xs).counts, ys).labels
    ensures ResolveAll(counts, xs + ys).counts == ResolveAll(ResolveAll(counts, xs).counts, ys).counts
    decreases |ys|
  {
    if ys == [] {
      assert xs + ys == xs;
    } else {
      var zs, front, y := xs + ys, ys[..|ys| - 1], ys[|ys| - 1];
      ResolveAllAppend(counts, xs, front);
      var first := ResolveAll(counts, xs);
      assert zs[..|zs| - 1] == xs + front && zs[|zs| - 1] == y;
      ResolveAllSnoc(counts, zs);
      ResolveAllSnoc(first.counts, ys);
      var mid := ResolveAll(first.counts, front);
      var step := ResolveLabel(mid.counts, y);
      assert first.labels + mid.labels + [step.given] == first.labels + (mid.labels + [step.given]);
    }
  }

  /** The last request of a run is resolved against the counts left by the others. */
  lemma ResolveAllSnoc(counts: map<string, nat>, rs: seq<string>)
    requires rs != []
    ensures
      var prior := ResolveAll(counts, rs[..|rs| - 1]);
      var step := ResolveLabel(prior.counts, rs[|rs| - 1]);
      ResolveAll(counts, rs) == Resolved(prior.labels + [step.given], step.counts)
  {
  }

  /** How often `l` occurs in `ls`. */
  function Count(ls: seq<string>, l: string): nat {
    if ls == [] then 0 else Count(ls[..|ls| - 1], l) + (if ls[|ls| - 1] == l then 1 else 0)
  }

  /** The label of the request that finds `n` earlier requests for the same base label. */
  function Numbered(l: string, n: nat): string {
    if n == 0 then l else l + "-" + NatToString(n)
  }

  /** After a run from the empty map, the map holds exactly the request counts. */
  lemma {:induction false} ResolveAllCounts(requests: seq<string>)
    ensures var r := ResolveAll(map[], requests);
      forall l :: (l in r.counts <==> Count(requests, l) > 0) && (l in r.counts ==> r.counts[l] == Count(requests, l))
  {
    if requests != [] {
      ResolveAllCounts(requests[..|requests| - 1]);
    }
  }

  /**
   * The closed form of the collision map: the request preceded by n requests for
   * the same base label L gets L when n = 0 and `L-n` otherwise, and afterwards
   * the map holds, for every label requested, the number of requests.
   */
  lemma {:induction false} ResolveAllClosedForm(requests: seq<string>)
    ensures var r := ResolveAll(map[], requests);
      && (forall i :: 0 <= i < |requests| ==> r.labels[i] == Numbered(requests[i], Count(requests[..i], requests[i])))
      && (forall l :: l in r.counts <==> l in requests)
      && (forall l :: l in r.counts ==> r.counts[l] == Count(requests, l))
  {
    ResolveAllCounts(requests);
    forall l
      ensures Count(requests, l) > 0 <==> l in requests
    {
      CountZeroAbsent(requests, l);
    }
    ResolveAllLabels(requests);
  }

  lemma {:induction false} ResolveAllLabels(requests: seq<string>)
    ensures var r := ResolveAll(map[], requests);
      forall i :: 0 <= i < |requests| ==> r.labels[i] == Numbered(requests[i], Count(requests[..i], requests[i]))
  {
    if requests != [] {
      var front := requests[..|requests| - 1];
      ResolveAllLabels(front);
      ResolveAllCounts(front);
      var r := ResolveAll(map[], requests);
      var prior := ResolveAll(map[], front);
      forall i | 0 <= i < |requests|
        ensures r.labels[i] == Numbered(requests[i], Count(requests[..i], requests[i]))
      {
        if i < |front| {
          assert r.labels[i] == prior.labels[i];
          assert requests[..i] == front[..i];
        } else {
          assert requests[..i] == front;
        }
      }
    }
  }

  lemma {:induction false} CountZeroAbsent(ls: seq<string>, l: string)
    ensures Count(ls, l) == 0 <==> l !in ls
  {
    if ls != [] {
      CountZeroAbsent(ls[..|ls| - 1], l);
      assert ls == ls[..|ls| - 1] + [ls[|ls| - 1]];
    }
  }

  /**
   * Numbering does not make labels unique: an image named `fig-1` and the second
   * image named `fig` both get the label `fig-1`.
   */
  lemma NumberedLabelsMayRepeat()
    ensures ResolveAll(map[], ["fig", "fig-1", "fig"]).labels == ["fig", "fig-1", "fig-1"]
  {
    var rs: seq<string> := ["fig", "fig-1", "fig"];
    ResolveAllClosedForm(rs);
    assert rs[..0] == [] && rs[..1] == ["fig"] && rs[..2] == ["fig", "fig-1"];
    assert ["fig"][..0] == [] && ["fig", "fig-1"][..1] == ["fig"];
    assert "fig" != "fig-1";
    assert Count(["fig"], "fig") == 1;
    assert Count(["fig", "fig-1"], "fig") == 1;
    assert Count(["fig"], "fig-1") == 0;
    assert NatToString(1) == "1";
    var r := ResolveAll(map[], rs);
    assert r.labels[0] == Numbered("fig", 0) == "fig";
    assert r.labels[1] == Numbered("fig-1", 0) == "fig-1";
    assert r.labels[2] == Numbered("fig", 1) == "fig-1";
  }

  /** The last segment of a path, after trailing slashes are dropped. */
  function LastSegment(path: string): (r: string)
    ensures forall i :: 0 <= i < |r| ==> r[i] != '/'
  {
    if path == [] then []
    else if path[|path| - 1] == '/' then LastSegment(path[..|path| - 1])
    else Segment(path)
  }

  /** The characters after the last slash of a path that does not end in one. */
  function Segment(path: string): (r: string)
    ensures forall i :: 0 <= i < |r| ==> r[i] != '/'
    ensures |r| <= |path| && r == path[|path| - |r|..]
  {
    if path == [] || path[|path| - 1] == '/' then []
    else Segment(path[..|path| - 1]) + [path[|path| - 1]]
  }

  /** The index of the last `.` in `s`, if any. */
  function LastDot(s: string): (r: int)
    ensures -1 <= r < |s|
    ensures r >= 0 ==> s[r] == '.' && forall i :: r < i < |s| ==> s[i] != '.'
    ensures r == -1 ==> forall i :: 0 <= i < |s| ==> s[i] != '.'
  {
    if s == [] then -1
    else if s[|s| - 1] == '.' then |s| - 1
    else LastDot(s[..|s| - 1])
  }

  /**
   * `path.parse(p).name`: the last segment without its extension. The extension
   * starts at the last dot, unless that dot is the first character (a dot file)
   * or the segment is `..`.
   */
  function BaseName(path: string): (r: string)
    ensures forall i :: 0 <= i < |r| ==> r[i] != '/'
    ensures StartsWith(LastSegment(path), r)
  {
    var base := LastSegment(path);
    var dot := LastDot(base);
    if dot <= 0 || base == ".." then base else base[..dot]
  }

  /** The part of a path after its last slash. */
  lemma {:induction false} SegmentAfterSlash(dir: string, x: string)
    requires forall i :: 0 <= i < |x| ==> x[i] != '/'
    ensures Segment(dir + "/" + x) == x
    decreases |x|
  {
    if x != [] {
      var p := dir + "/" + x;
      assert p[..|p| - 1] == dir + "/" + x[..|x| - 1];
      SegmentAfterSlash(dir, x[..|x| - 1]);
      assert x == x[..|x| - 1] + [x[|x| - 1]];
    }
  }

  /** Directories and the last extension are dropped; dots inside the name are kept. */
  lemma BaseNameDropsExtension(dir: string, name: string, ext: string)
    requires name != [] && !(name == "." && ext == [])
    requires forall i :: 0 <= i < |name| ==> name[i] != '/'
    requires forall i :: 0 <= i < |ext| ==> ext[i] != '/' && ext[i] != '.'
    ensures BaseName(dir + "/" + name + "." + ext) == name
  {
    var x := name + "." + ext;
    var path := dir + "/" + name + "." + ext;
    assert path == dir + "/" + x;
    SegmentAfterSlashName(dir, name, ext);
    LastDotBeforeExt(name, ext);
    assert x != ".." by {
      if ext != [] {
        assert x[|x| - 1] == ext[|ext| - 1];
      } else if |name| == 1 {
        assert x[0] == name[0] && name == [name[0]];
      }
    }
    BaseNameOf(path, x, |name|);
    assert x[..|name|] == name;
  }

  /** The base name once the last segment and its last dot are known. */
  lemma BaseNameOf(path: string, x: string, k: nat)
    requires LastSegment(path) == x && LastDot(x) == k && 0 < k && x != ".."
    ensures BaseName(path) == x[..k]
  {
  }

  /** The last segment of `dir/name.ext` is `name.ext`. */
  lemma SegmentAfterSlashName(dir: string, name: string, ext: string)
    requires forall i :: 0 <= i < |name| ==> name[i] != '/'
    requires forall i :: 0 <= i < |ext| ==> ext[i] != '/'
    ensures LastSegment(dir + "/" + (name + "." + ext)) == name + "." + ext
  {
    var x := name + "." + ext;
    assert forall i :: 0 <= i < |x| ==> x[i] != '/' by {
      forall i | 0 <= i < |x|
        ensures x[i] != '/'
      {
        if i < |name| { assert x[i] == name[i]; }
        else if i > |name| { assert x[i] == ext[i - |name| - 1]; }
      }
    }
    SegmentAfterSlash(dir, x);
    var p := dir + "/" + x;
    assert p[|p| - 1] == x[|x| - 1] != '/';
  }

  /** The last dot of `name.ext`, where the extension holds no dot, is the one before it. */
  lemma LastDotBeforeExt(name: string, ext: string)
    requires forall i :: 0 <= i < |ext| ==> ext[i] != '.'
    ensures LastDot(name + "." + ext) == |name|
  {
    var x := name + "." + ext;
    assert x == name + ("." + ext);
    forall i | |name| < i < |x|
      ensures x[i] != '.'
    {
      assert x[i] == ("." + ext)[i - |name|] == ext[i - |name| - 1];
    }
    LastDotIs(x, |name|);
  }

  /** A dot with no dot after it is the last dot. */
  lemma LastDotIs(s: string, k: nat)
    requires k < |s| && s[k] == '.' && forall i :: k < i < |s| ==> s[i] != '.'
    ensures LastDot(s) == k
  {
  }

  /** A dot file keeps its leading dot. */
  lemma BaseNameKeepsDotFile(dir: string, x: string)
    requires |x| > 0 && x[0] == '.'
    requires forall i :: 0 <= i < |x| ==> x[i] != '/'
    requires forall i :: 0 < i < |x| ==> x[i] != '.'
    ensures BaseName(dir + "/" + x) == x
  {
    SegmentAfterSlash(dir, x);
    assert LastDot(x) == 0;
  }
}
