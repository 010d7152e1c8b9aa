/**
 * How `save_image` picks an output format: the last '.'-separated segment
 * of the lower-cased path decides, and anything unrecognised becomes PNG.
 * Both processor variants use exactly this dispatch.
 */
module Formats {
  import opened Pil

  /** Lower-casing of one character; only ASCII letters change. */
  function LowerChar(c: char): char {
    if 'A' <= c <= 'Z' then (c as int + 32) as char else c
  }

  /** `s.lower()` on ASCII text. */
  function Lower(s: string): (r: string)
    ensures |r| == |s|
    ensures forall i :: 0 <= i < |s| ==> r[i] == LowerChar(s[i])
  {
    seq(|s|, i requires 0 <= i < |s| => LowerChar(s[i]))
  }

  /** `sep.join(parts)` with sep '.': it starts with the first part. */
  function Join(parts: seq<string>): (r: string)
    requires |parts| >= 1
    ensures |parts[0]| <= |r| && r[..|parts[0]|] == parts[0]
    decreases |parts|
  {
    if |parts| == 1 then parts[0]
    else
      parts[0] + "." + Join(parts[1..])
  }

  /**
   * `s.split('.')`: never empty, no part holds a '.', and joining the parts
   * with '.' gives `s` back.
   */
  function Split(s: string): (parts: seq<string>)
    ensures |parts| >= 1
    ensures forall k :: 0 <= k < |parts| ==> '.' !in parts[k]
    ensures Join(parts) == s
    decreases |s|
  {
    if |s| == 0 then [""]
    else
      var rest := Split(s[1..]);
      if s[0] == '.' then
        assert Join([""] + rest) == "." + Join(rest) by {
          assert ([""] + rest)[1..] == rest;
        }
        [""] + rest
      else
        var parts := [[s[0]] + rest[0]] + rest[1..];
        assert Join(parts) == s by {
          if |rest| == 1 {
            assert Join(parts) == [s[0]] + rest[0];
          } else {
            assert parts[1..] == rest[1..];
            assert Join(rest) == rest[0] + "." + Join(rest[1..]);
            assert Join(parts) == ([s[0]] + rest[0]) + "." + Join(rest[1..]);
          }
          assert s == [s[0]] + s[1..];
        }
        parts
  }

  /** `file_path.lower().split('.')[-1]`; it holds no '.'. */
  function Extension(path: string): (e: string)
    ensures '.' !in e
  {
    var parts := Split(Lower(path));
    parts[|parts| - 1]
  }

  /** The last part of a join follows the last separator. */
  lemma {:induction false} JoinLast(parts: seq<string>)
    requires |parts| >= 2
    ensures Join(parts) == Join(parts[..|parts| - 1]) + "." + parts[|parts| - 1]
    decreases |parts|
  {
    if |parts| == 2 {
      assert parts[..1] == [parts[0]];
      assert parts[1..] == [parts[1]];
    } else {
      var tail := parts[1..];
      JoinLast(tail);
      assert tail[..|tail| - 1] == parts[..|parts| - 1][1..];
      assert tail[|tail| - 1] == parts[|parts| - 1];
    }
  }

  /**
   * The extension is a dot-free suffix of the lower-cased path that is
   * either the whole path or directly preceded by a '.'.
   */
  lemma ExtensionIsLastSegment(path: string)
    ensures var e, s := Extension(path), Lower(path);
      '.' !in e && |e| <= |s| && s[|s| - |e|..] == e
      && (|e| < |s| ==> s[|s| - |e| - 1] == '.')
  {
    var s := Lower(path);
    var parts := Split(s);
    var e := parts[|parts| - 1];
    if |parts| >= 2 {
      JoinLast(parts);
      var front := Join(parts[..|parts| - 1]);
      assert s == front + "." + e;
      assert s[|s| - |e|..] == e;
      assert s[|s| - |e| - 1] == '.';
    }
  }

  /** Names the character at `i`, so that a proof can mention it. */
  lemma CharAt(s: string, i: int)
    ensures 0 <= i < |s| ==> s[i] in s
  {
  }

  /** A path whose final segment is `ext` has extension `ext`, lower-cased. */
  lemma ExtensionOfJoin(stem: string, ext: string)
    requires '.' !in ext
    ensures Extension(stem + "." + ext) == Lower(ext)
  {
    var path := stem + "." + ext;
    var s := Lower(path);
    assert s == Lower(stem) + "." + Lower(ext);
    var lext := Lower(ext);
    assert '.' !in lext by {
      forall i | 0 <= i < |lext| ensures lext[i] != '.' {
        assert ext[i] != '.';
      }
    }
    ExtensionIsLastSegment(path);
    var e := Extension(path);
    if |e| > |lext| {
      CharAt(e, |e| - |lext| - 1);
      CharAt(s, |s| - |lext| - 1);
      assert false;
    } else if |e| < |lext| {
      CharAt(lext, |lext| - |e| - 1);
      CharAt(s, |s| - |e| - 1);
      assert false;
    }
    assert e == s[|s| - |e|..] == lext;
  }

  /** Without any '.', the whole lower-cased path is the extension. */
  lemma NoDotWholePath(path: string)
    requires '.' !in path
    ensures Extension(path) == Lower(path)
  {
    ExtensionIsLastSegment(path);
  }

  datatype FileFormat = JPEG | PNG | BMP

  /** The arguments `save` is given besides the path. */
  datatype SaveOptions = SaveOptions(format: FileFormat, quality: Option<int>, optimize: bool)

  /** The default `quality` of `save_image`. */
  const DefaultQuality := 95

  /** The format and options `save_image` passes to `save` for this path. */
  function SaveOptionsFor(path: string, quality: int): (o: SaveOptions)
    ensures o.format == JPEG <==> Extension(path) in {"jpg", "jpeg"}
    ensures o.format == BMP <==> Extension(path) == "bmp"
    ensures o.quality == (if o.format == JPEG then Some(quality) else None)
    ensures o.optimize <==> o.format != BMP
  {
    var ext := Extension(path);
    if ext == "jpg" || ext == "jpeg" then SaveOptions(JPEG, Some(quality), true)
    else if ext == "png" then SaveOptions(PNG, None, true)
    else if ext == "bmp" then SaveOptions(BMP, None, false)
    else SaveOptions(PNG, None, true)
  }

  /** Lower-casing twice is lower-casing once. */
  lemma LowerIdempotent(s: string)
    ensures Lower(Lower(s)) == Lower(s)
  {
    var l := Lower(s);
    forall i | 0 <= i < |s| ensures Lower(l)[i] == l[i] {
      assert LowerChar(LowerChar(s[i])) == LowerChar(s[i]);
    }
  }

  /** The dispatch ignores letter case. */
  lemma DispatchIgnoresCase(path: string, quality: int)
    ensures SaveOptionsFor(path, quality) == SaveOptionsFor(Lower(path), quality)
  {
    LowerIdempotent(path);
  }

  /** `stem.ext` is saved by `ext` alone: jpg and jpeg give JPEG, bmp BMP, everything else PNG. */
  lemma DispatchByFinalSegment(stem: string, ext: string, quality: int)
    requires '.' !in ext
    ensures var o := SaveOptionsFor(stem + "." + ext, quality);
      o.format == (if Lower(ext) in {"jpg", "jpeg"} then JPEG
                   else if Lower(ext) == "bmp" then BMP
                   else PNG)
  {
    ExtensionOfJoin(stem, ext);
  }

  /**
   * A path without '.' is judged by its whole name: "report" is saved as
   * PNG, but a file literally named "JPG" is saved as JPEG.
   */
  lemma DispatchWithoutDot(path: string, quality: int)
    requires '.' !in path
    ensures var o := SaveOptionsFor(path, quality);
      o.format == (if Lower(path) in {"jpg", "jpeg"} then JPEG
                   else if Lower(path) == "bmp" then BMP
                   else PNG)
  {
    NoDotWholePath(path);
  }
}
