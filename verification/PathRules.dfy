/** validate_archive_path and has_dotdot_segment of src/archive/buffer_archive.cpp. */
module PathRules {
  import opened ByteStrings
  import opened Utf8

  const DOT: byte := 46

  /** A segment that starts at a and is exactly "..": dots are 46, slashes 47. */
  predicate DotDotAt(path: Bytes, a: nat) {
    && a + 2 <= |path| && path[a] == 46 && path[a + 1] == 46
    && (a == 0 || path[a - 1] == 47)
    && (a + 2 == |path| || path[a + 2] == 47)
  }

  predicate Printable(path: Bytes) { forall i :: 0 <= i < |path| ==> path[i] >= 0x20 && path[i] != 92 }

  predicate IsDirPath(path: Bytes) { |path| > 0 && path[|path| - 1] == SLASH }

  ghost predicate ValidPath(path: Bytes, isDir: bool) {
    && 0 < |path| <= 2048 && WellFormed(path) && path[0] != 47 && Printable(path)
    && (forall a :: !DotDotAt(path, a))
    && isDir == (path[|path| - 1] == 47)
  }

  method FindSlash(path: Bytes, start: nat) returns (end: nat)
    requires start <= |path|
    ensures start <= end <= |path| && (end < |path| ==> path[end] == SLASH)
    ensures forall k :: start <= k < end ==> path[k] != SLASH
  {
    end := start;
    while end < |path| && path[end] != SLASH
      invariant start <= end <= |path| && forall k :: start <= k < end ==> path[k] != SLASH
    {
      end := end + 1;
    }
  }

  method HasDotDotSegment(path: Bytes) returns (found: bool)
    ensures found <==> exists a :: DotDotAt(path, a)
  {
    var start := 0;
    while start <= |path|
      invariant 0 <= start <= |path| + 1 && (start == 0 || start == |path| + 1 || path[start - 1] == SLASH)
      invariant forall a :: 0 <= a < start ==> !DotDotAt(path, a)
    {
      var end := FindSlash(path, start);
      if end - start == 2 && path[start] == DOT && path[start + 1] == DOT {
        assert DotDotAt(path, start);
        return true;
      }
      forall a | start <= a <= end ensures !DotDotAt(path, a) {
        assert a > start ==> path[a - 1] != SLASH;
      }
      if end == |path| { break; }
      start := end + 1;
    }
    found := false;
  }

  /** validate_archive_path accepts exactly the valid paths. */
  method ValidatePath(path: Bytes, isDir: bool) returns (ok: bool)
    ensures ok <==> ValidPath(path, isDir)
  {
    hide WellFormed;
    if |path| == 0 || |path| > 2048 { return false; }
    var utf8 := IsValidUtf8(path);
    if !utf8 || path[0] == SLASH { return false; }
    for i := 0 to |path|
      invariant forall k :: 0 <= k < i ==> path[k] >= 0x20 && path[k] != 92
    {
      if path[i] < 0x20 || path[i] == 92 { return false; }
    }
    var dots := HasDotDotSegment(path);
    ok := !dots && isDir == IsDirPath(path);
  }
}
