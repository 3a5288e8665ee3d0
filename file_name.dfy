/** The name under which a downloaded archive is stored in its temporary
    directory: the last segment of the response URL's path, or "tmp.zip". */
module FileName {
  import opened Outcomes

  const FallbackName := "tmp.zip"

  /** The pieces of `s` between its '/' characters, in order (`str::split('/')`). */
  function Split(s: string): (parts: seq<string>)
    ensures |parts| >= 1
    ensures forall k :: 0 <= k < |parts| ==> '/' !in parts[k]
  {
    if s == [] then [""]
    else
      var rest := Split(s[1..]);
      if s[0] == '/' then [""] + rest
      else [[s[0]] + rest[0]] + rest[1..]
  }

  /** The pieces put back together with '/' between them: the inverse of Split. */
  function Join(parts: seq<string>): (s: string)
    requires |parts| >= 1
  {
    if |parts| == 1 then parts[0] else parts[0] + "/" + Join(parts[1..])
  }

  lemma {:induction false} JoinSplit(s: string)
    ensures Join(Split(s)) == s
  {
    if s != [] {
      var rest := Split(s[1..]);
      JoinSplit(s[1..]);
      if s[0] == '/' {
        assert Split(s) == [""] + rest;
        assert ([""] + rest)[1..] == rest;
        assert s == "/" + s[1..];
      } else {
        var parts := [[s[0]] + rest[0]] + rest[1..];
        assert Split(s) == parts;
        if |rest| == 1 {
          assert Join(parts) == [s[0]] + rest[0];
        } else {
          assert parts[1..] == rest[1..];
          assert Join(parts) == ([s[0]] + rest[0]) + "/" + Join(rest[1..]);
          assert Join(rest) == rest[0] + "/" + Join(rest[1..]);
        }
        assert s == [s[0]] + s[1..];
      }
    }
  }

  lemma {:induction false} SplitPlain(a: string)
    requires '/' !in a
    ensures Split(a) == [a]
  {
    if a != [] {
      assert '/' !in a[1..] by {
        forall k | 0 <= k < |a[1..]| ensures a[1..][k] != '/' { assert a[1..][k] == a[k + 1]; }
      }
      SplitPlain(a[1..]);
      assert a == [a[0]] + a[1..];
    }
  }

  lemma {:induction false} SplitAfterSlash(a: string, b: string)
    requires '/' !in a
    ensures Split(a + "/" + b) == [a] + Split(b)
  {
    var s := a + "/" + b;
    if a == [] {
      assert s == "/" + b;
      assert s[1..] == b;
    } else {
      assert s[1..] == a[1..] + "/" + b;
      assert '/' !in a[1..] by {
        forall k | 0 <= k < |a[1..]| ensures a[1..][k] != '/' { assert a[1..][k] == a[k + 1]; }
      }
      SplitAfterSlash(a[1..], b);
      assert a == [a[0]] + a[1..];
    }
  }

  /** Splitting what Join produced gives back the pieces, when none holds a '/'. */
  lemma {:induction false} SplitJoin(parts: seq<string>)
    requires |parts| >= 1
    requires forall k :: 0 <= k < |parts| ==> '/' !in parts[k]
    ensures Split(Join(parts)) == parts
  {
    if |parts| == 1 {
      SplitPlain(parts[0]);
    } else {
      SplitJoin(parts[1..]);
      SplitAfterSlash(parts[0], Join(parts[1..]));
      assert parts == [parts[0]] + parts[1..];
    }
  }

  /** Everything before the last piece, then '/', then the last piece. */
  lemma {:induction false} JoinLast(parts: seq<string>)
    requires |parts| > 1
    ensures Join(parts) == Join(parts[..|parts| - 1]) + "/" + parts[|parts| - 1]
  {
    if |parts| > 2 {
      JoinLast(parts[1..]);
      assert parts[1..][..|parts| - 2] == parts[..|parts| - 1][1..];
    }
  }

  /** `Url::path_segments`: a path that starts with '/' is split at '/' after that
      first '/'; any other path (that of a cannot-be-a-base URL) has no segments. */
  function Segments(path: string): (segments: Option<seq<string>>)
    ensures segments.Some? <==> |path| > 0 && path[0] == '/'
    ensures segments.Some? ==> |segments.value| >= 1
  {
    if |path| > 0 && path[0] == '/' then Some(Split(path[1..])) else None
  }

  /** `Iterator::last`. */
  function Last(segments: seq<string>): (last: Option<string>)
    ensures last.None? <==> segments == []
    ensures last.Some? ==> segments == segments[..|segments| - 1] + [last.value]
  {
    if segments == [] then None else Some(segments[|segments| - 1])
  }

  /** The destination file name for a response whose final URL has path `path`. */
  function DestinationName(path: string): (name: string)
    ensures name != "" && '/' !in name
    ensures (|path| == 0 || path[0] != '/') ==> name == FallbackName
  {
    var segments := Segments(path);
    var last := if segments.None? then None else Last(segments.value);
    if last.Some? && last.value != "" then last.value else FallbackName
  }

  /** The last piece of Split(s) is the text after the last '/' of `s`. */
  lemma LastPieceIsSuffix(s: string)
    ensures var parts := Split(s); var last := parts[|parts| - 1];
      |last| <= |s| && s[|s| - |last|..] == last && (|last| == |s| || s[|s| - |last| - 1] == '/')
  {
    var parts := Split(s);
    var last := parts[|parts| - 1];
    JoinSplit(s);
    if |parts| > 1 {
      JoinLast(parts);
      var before := Join(parts[..|parts| - 1]);
      assert s == before + "/" + last;
      assert s[|s| - |last|..] == last;
      assert s[|s| - |last| - 1] == '/';
    }
  }

  /** A path without a leading '/' has no segments, and one that ends in '/' has
      an empty last segment: both fall back to "tmp.zip". Otherwise the name is
      the whole, non-empty text after the path's last '/'. */
  lemma FileNameIsLastSegment(path: string)
    ensures |path| == 0 || path[0] != '/' || path[|path| - 1] == '/' ==> DestinationName(path) == FallbackName
    ensures |path| > 0 && path[0] == '/' && path[|path| - 1] != '/' ==>
      var name := DestinationName(path);
      0 < |name| < |path| && name == path[|path| - |name|..] && path[|path| - |name| - 1] == '/'
  {
    if |path| > 0 && path[0] == '/' {
      var s := path[1..];
      var parts := Split(s);
      var last := parts[|parts| - 1];
      assert Segments(path) == Some(parts);
      assert DestinationName(path) == if last != "" then last else FallbackName;
      LastPieceIsSuffix(s);
      assert path == "/" + s;
      assert path[|path| - |last|..] == last;
      assert path[|path| - |last| - 1] == '/';
      if last != "" {
        assert path[|path| - 1] == last[|last| - 1];
        assert last[|last| - 1] != '/';
      }
    }
  }
}
