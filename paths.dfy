/**
 The part of `org.eclipse.core.runtime.IPath` the path-variable code uses: an optional
 device (`"c:"`), a leading-separator flag and a sequence of segments.
 */
module Paths {
  import opened Wrappers
  import opened Strings

  datatype Path = Path(device: Option<string>, absolute: bool, segments: seq<string>) {

    function SegmentCount(): nat {
      |segments|
    }

    /** `isPrefixOf`: same device, and this path's segments lead the other's. */
    predicate IsPrefixOf(other: Path) {
      device == other.device && segments <= other.segments
    }

    /** `matchingFirstSegments`: the length of the common leading run of segments. */
    function MatchingFirstSegments(other: Path): (n: nat)
      ensures n <= |segments| && n <= |other.segments|
      ensures segments[..n] == other.segments[..n]
      ensures n < |segments| && n < |other.segments| ==> segments[n] != other.segments[n]
    {
      CommonPrefixLength(segments, other.segments)
    }

    /** `append(String)` of a single segment. */
    function AppendSegment(segment: string): Path {
      Path(device, absolute, segments + [segment])
    }

    /** `append(IPath)`: the tail's segments after this path's. */
    function Append(tail: Path): Path {
      if |tail.segments| == 0 then this else Path(device, absolute, segments + tail.segments)
    }

    /** `removeLastSegments(count)`. */
    function RemoveLastSegments(count: nat): (r: Path)
      ensures r.device == device
      ensures r.segments == if count >= |segments| then [] else segments[..|segments| - count]
    {
      if count == 0 then this
      else if count >= |segments| then Path(device, absolute, [])
      else Path(device, absolute, segments[..|segments| - count])
    }

    /** `removeFirstSegments(count)`: the result is relative. */
    function RemoveFirstSegments(count: nat): Path {
      if count == 0 then this
      else if count >= |segments| then Path(device, false, [])
      else Path(device, false, segments[count..])
    }
  }

  function CommonPrefixLength(a: seq<string>, b: seq<string>): (n: nat)
    ensures n <= |a| && n <= |b|
    ensures a[..n] == b[..n]
    ensures n < |a| && n < |b| ==> a[n] != b[n]
  {
    if |a| == 0 || |b| == 0 || a[0] != b[0] then 0
    else
      var n := 1 + CommonPrefixLength(a[1..], b[1..]);
      assert a[..n] == [a[0]] + a[1..][..n - 1];
      assert b[..n] == [b[0]] + b[1..][..n - 1];
      n
  }

  /**
   `Path.fromOSString(name)` for a variable name or a `${...}` string: these hold no separator,
   so they parse to one relative segment.
   */
  function FromOSString(name: string): Path {
    Path(None, false, [name])
  }

  /** The platform separator: `\` on Windows, `/` elsewhere. */
  function Separator(win32: bool): char {
    if win32 then '\\' else '/'
  }

  function Join(parts: seq<string>, sep: char): string {
    if |parts| == 0 then ""
    else if |parts| == 1 then parts[0]
    else parts[0] + [sep] + Join(parts[1..], sep)
  }

  /** `toOSString()`: device, leading separator, segments joined by the platform separator. */
  function ToOSString(p: Path, win32: bool): string {
    (match p.device case Some(d) => d case None => "")
      + (if p.absolute then [Separator(win32)] else "")
      + Join(p.segments, Separator(win32))
  }

  /** A name parsed with `FromOSString` prints back as itself. */
  lemma OSStringRoundTrip(name: string, win32: bool)
    ensures ToOSString(FromOSString(name), win32) == name
  {
  }

  /**
   `convertToProperCase`: on Windows the path is rebuilt from its lower-cased portable
   string; elsewhere it is returned as is.
   */
  function ConvertToProperCase(p: Path, win32: bool): (q: Path)
    ensures |q.segments| == |p.segments| && q.absolute == p.absolute
    ensures q.device.Some? <==> p.device.Some?
  {
    if win32 then
      Path(match p.device case Some(d) => Some(ToLower(d)) case None => None,
           p.absolute,
           seq(|p.segments|, i requires 0 <= i < |p.segments| => ToLower(p.segments[i])))
    else p
  }

  /** Case normalisation is idempotent, and the identity unless the platform is Windows. */
  lemma ProperCaseIdempotent(p: Path, win32: bool)
    ensures ConvertToProperCase(ConvertToProperCase(p, win32), win32) == ConvertToProperCase(p, win32)
    ensures !win32 ==> ConvertToProperCase(p, win32) == p
  {
    if win32 {
      var q := ConvertToProperCase(p, win32);
      forall i | 0 <= i < |q.segments|
        ensures ToLower(q.segments[i]) == q.segments[i]
      {
        ToLowerIdempotent(p.segments[i]);
      }
      match p.device {
        case Some(d) => ToLowerIdempotent(d);
        case None =>
      }
    }
  }
}
