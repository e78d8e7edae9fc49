/**
 * `File(path).relativeTo(File(base)).path` on normalized paths: both paths
 * are cut into segments at the separator, their common leading segments are
 * dropped, each remaining segment of the base becomes `..`, and the rest of
 * the path follows.
 */
module Paths {
  import opened Strings

  /** `File.separator` on the platforms the model describes. */
  const Separator: char := '/'

  /** The number of leading segments `a` and `b` share. */
  function CommonPrefixLength(a: seq<string>, b: seq<string>): (n: nat)
    ensures n <= |a| && n <= |b|
    ensures forall i :: 0 <= i < n ==> a[i] == b[i]
    ensures n < |a| && n < |b| ==> a[n] != b[n]
  {
    if |a| == 0 || |b| == 0 || a[0] != b[0] then 0
    else 1 + CommonPrefixLength(a[1..], b[1..])
  }

  /** `k` parent steps. */
  function ParentSteps(k: nat): (steps: seq<string>)
    ensures |steps| == k
    ensures forall i :: 0 <= i < k ==> steps[i] == ".."
  {
    if k == 0 then [] else [".."] + ParentSteps(k - 1)
  }

  /** The segments of `path` seen from `base`. */
  function RelativeSegments(path: seq<string>, base: seq<string>): seq<string> {
    var n := CommonPrefixLength(path, base);
    ParentSteps(|base| - n) + path[n..]
  }

  /**
   * The segments of a normalized path. `java.io.File` drops a trailing
   * separator, so `/proj/` is `/proj`, and the root `/` is the leading empty
   * segment alone.
   */
  function Segments(path: string): seq<string> {
    var split := Split(path, Separator);
    if |split| > 1 && split[|split| - 1] == "" then split[..|split| - 1] else split
  }

  /** A path has at least one segment, and no segment holds the separator. */
  lemma SegmentsWellFormed(path: string)
    ensures |Segments(path)| >= 1
    ensures forall i :: 0 <= i < |Segments(path)| ==> Separator !in Segments(path)[i]
  {
    var split := Split(path, Separator);
    if |split| > 1 && split[|split| - 1] == "" {
      forall i | 0 <= i < |split| - 1
        ensures Separator !in Segments(path)[i]
      {
        assert Segments(path)[i] == split[i];
      }
    }
  }

  /** The relative path as text, its segments joined by the separator. */
  function RelativeTo(path: string, base: string): string {
    Join(RelativeSegments(Segments(path), Segments(base)), Separator)
  }

  /** A path below `base` is seen from `base` as the segments after it. */
  lemma RelativeSegmentsOfDescendant(base: seq<string>, rest: seq<string>)
    ensures RelativeSegments(base + rest, base) == rest
  {
    assert (base + rest)[|base|..] == rest;
  }

  /** Splitting the relative path recovers its segments; an empty relative path splits into one empty segment. */
  lemma SplitRelativeTo(path: string, base: string)
    ensures var rel := RelativeSegments(Segments(path), Segments(base));
      Split(RelativeTo(path, base), Separator) == (if |rel| == 0 then [""] else rel)
  {
    SegmentsWellFormed(path);
    SegmentsWellFormed(base);
    var p := Segments(path);
    var b := Segments(base);
    var n := CommonPrefixLength(p, b);
    var rel := RelativeSegments(p, b);
    if |rel| > 0 {
      forall i | 0 <= i < |rel|
        ensures Separator !in rel[i]
      {
        if i >= |b| - n {
          assert rel[i] == p[n + i - (|b| - n)];
        } else {
          assert rel[i] == "..";
        }
      }
      SplitJoin(rel, Separator);
    }
  }

  /** Joining separator-free segments that do not end in an empty one gives a path with exactly those segments. */
  lemma SegmentsJoin(parts: seq<string>)
    requires |parts| >= 1 && parts[|parts| - 1] != ""
    requires forall i :: 0 <= i < |parts| ==> Separator !in parts[i]
    ensures Segments(Join(parts, Separator)) == parts
  {
    var split := Split(Join(parts, Separator), Separator);
    SplitJoin(parts, Separator);
    assert split == parts;
  }

  /**
   * A path below `base`, written as the segments of `base` followed by more
   * segments, is seen from `base` as those segments. The last segment names
   * the file, so it is not empty.
   */
  lemma RelativeToDescendant(base: string, rest: seq<string>)
    requires |rest| >= 1 && rest[|rest| - 1] != ""
    requires forall i :: 0 <= i < |rest| ==> Separator !in rest[i]
    ensures Split(RelativeTo(Join(Segments(base) + rest, Separator), base), Separator) == rest
  {
    var path := Join(Segments(base) + rest, Separator);
    SegmentsWellFormed(base);
    DescendantSegments(Segments(base), rest);
    SplitRelativeTo(path, base);
  }

  /** The segments of a path joined from a base's segments and more segments are those segments, and relative to the base they are the extra ones. */
  lemma DescendantSegments(b: seq<string>, rest: seq<string>)
    requires |rest| >= 1 && rest[|rest| - 1] != ""
    requires forall i :: 0 <= i < |b| ==> Separator !in b[i]
    requires forall i :: 0 <= i < |rest| ==> Separator !in rest[i]
    ensures RelativeSegments(Segments(Join(b + rest, Separator)), b) == rest
  {
    var segments := b + rest;
    forall i | 0 <= i < |segments|
      ensures Separator !in segments[i]
    {
      if i < |b| {
        assert segments[i] == b[i];
      } else {
        assert segments[i] == rest[i - |b|];
      }
    }
    assert segments[|segments| - 1] == rest[|rest| - 1];
    SegmentsJoin(segments);
    RelativeSegmentsOfDescendant(b, rest);
  }
}
