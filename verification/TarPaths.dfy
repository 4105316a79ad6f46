/** Which paths the files of an accepted archive may have. */
module TarPaths {
  import opened Bytes
  import opened Tar

  /** A segment: from the start, or from behind a slash, to the end, or to a slash, with no slash in between. */
  ghost predicate IsSegment(path: Bytes, i: nat, j: nat) {
    && i <= j <= |path| && (i == 0 || path[i - 1] == '/' as int) && (j == |path| || path[j] == '/' as int)
    && forall k | i <= k < j :: path[k] != '/' as int
  }

  /** In any letter case. */
  ghost predicate SaysGit(t: Bytes) {
    |t| == 4 && t[0] == '.' as int && t[1] in {'g' as int, 'G' as int} && t[2] in {'i' as int, 'I' as int}
    && t[3] in {'t' as int, 'T' as int}
  }

  /** Nothing that leads elsewhere: not empty, not `.`, not `..`, and not a Git directory. */
  ghost predicate IsPlainName(t: Bytes) {
    t != [] && t != ['.' as int] && t != ['.' as int, '.' as int] && !SaysGit(t)
  }

  ghost predicate HasNoControls(path: Bytes) { forall k | 0 <= k < |path| :: 0x20 <= path[k] != 0x7f && path[k] != '\\' as int }

  lemma GoodSegmentIs(t: Bytes)
    ensures GoodSegment(t) <==> IsPlainName(t) && |t| <= 255
  {
    assert IsGit(t) <==> SaysGit(t);
  }

  /** All segments are good names of at most 255 bytes. */
  ghost predicate HasPlainNames(path: Bytes) {
    forall i, j | 0 <= i <= j <= |path| && IsSegment(path, i, j) :: IsPlainName(path[i..j]) && j - i <= 255
  }

  lemma SegmentOfRest(path: Bytes, slash: nat, i: nat, j: nat)
    requires slash < |path| && path[slash] == SLASH && IsSegment(path[slash + 1..], i, j)
    ensures IsSegment(path, i + slash + 1, j + slash + 1) && path[i + slash + 1..j + slash + 1] == path[slash + 1..][i..j]
  {
    var rest := path[slash + 1..];
    assert i > 0 ==> rest[i - 1] == path[i + slash];
    assert j < |rest| ==> rest[j] == path[j + slash + 1];
    forall k | i + slash + 1 <= k < j + slash + 1 ensures path[k] != SLASH {
      assert path[k] == rest[k - slash - 1];
    }
  }

  lemma SegmentBehind(path: Bytes, slash: nat, i: nat, j: nat)
    requires slash <= |path| && (slash < |path| ==> path[slash] == SLASH) && (forall k | 0 <= k < slash :: path[k] != SLASH)
    requires IsSegment(path, i, j)
    ensures (i == 0 && j == slash)
         || (i > slash && IsSegment(path[slash + 1..], i - slash - 1, j - slash - 1)
             && path[slash + 1..][i - slash - 1..j - slash - 1] == path[i..j])
  {
    if slash < |path| && i > slash {
      var rest, m, n := path[slash + 1..], i - slash - 1, j - slash - 1;
      assert m > 0 ==> rest[m - 1] == path[i - 1];
      assert n < |rest| ==> rest[n] == path[j];
      forall k | m <= k < n ensures rest[k] != SLASH {
        assert rest[k] == path[k + slash + 1];
      }
    }
  }

  /** The parts between slashes are good exactly when all segments are. */
  lemma {:induction false} SegmentsAreGood(path: Bytes)
    ensures GoodSegments(path) <==> HasPlainNames(path)
    decreases |path|
  {
    hide GoodSegment, IsPlainName, IsSegment;
    var slash := IndexOf(path, 0, SLASH);
    GoodSegmentIs(path[..slash]);
    FirstSegment(path, slash);
    if slash < |path| {
      var rest := path[slash + 1..];
      SegmentsAreGood(rest);
      forall i, j | 0 <= i <= j <= |rest| && IsSegment(rest, i, j)
        ensures HasPlainNames(path) ==> IsPlainName(rest[i..j]) && j - i <= 255
      {
        SegmentOfRest(path, slash, i, j);
      }
    }
    forall i, j | 0 <= i <= j <= |path| && IsSegment(path, i, j)
      ensures GoodSegments(path) ==> IsPlainName(path[i..j]) && j - i <= 255
    {
      SegmentBehind(path, slash, i, j);
    }
  }

  lemma FirstSegment(path: Bytes, slash: nat)
    requires slash == IndexOf(path, 0, SLASH)
    ensures IsSegment(path, 0, slash) && path[0..slash] == path[..slash]
  {
  }

  // ---- Paths of accepted archives -------------------------------------------------------------

  /** A byte order mark, which the decoder takes away before a path is checked. */
  const MARK: Bytes := [0xef, 0xbb, 0xbf]

  ghost function Checked(path: Bytes): Bytes { if MARK <= path then path[3..] else path }

  /** A path is good exactly when it is short enough, UTF-8 in normal form, and has plain names and no controls, but for a mark. */
  lemma GoodPathsAre(host: Host, path: Bytes)
    ensures GoodPath(host, path) <==>
              && 0 < |path| <= 1024 && host.utf8(path) && host.nfc(Checked(path))
              && HasNoControls(Checked(path)) && HasPlainNames(Checked(path))
  {
    assert Decode(host, path).Some? ==> Decode(host, path).value == Checked(path);
    SegmentsAreGood(Checked(path));
  }

  /** No file of an accepted archive has a path that leads out of the package, or into a Git directory. */
  lemma AcceptedPathsArePlain(host: Host, a: Bytes, f: File)
    requires Files(host, a).Some? && f in Files(host, a).value
    ensures 0 < |f.path| <= 1024 && f.path[0] != '/' as int && HasNoControls(f.path)
    ensures forall i, j | 0 <= i <= j <= |f.path| && IsSegment(f.path, i, j) ::
              IsPlainName(f.path[i..j]) && (j - i <= 255 || (i == 0 && MARK <= f.path && j <= 258))
  {
    hide GoodPath, HasPlainNames, Walk;
    var rs, end := AcceptedArchiveIsTiled(host, a);
    assert GoodPath(host, f.path);
    GoodPathsAre(host, f.path);
    ControlsOfMarked(f.path);
    forall i, j | 0 <= i <= j <= |f.path| && IsSegment(f.path, i, j)
      ensures IsPlainName(f.path[i..j]) && (j - i <= 255 || (i == 0 && MARK <= f.path && j <= 258))
    {
      MarkedSegment(f.path, i, j);
    }
    PathStarts(f.path);
  }

  lemma ControlsOfMarked(path: Bytes)
    requires HasNoControls(Checked(path))
    ensures HasNoControls(path)
  {
    if MARK <= path {
      forall k | 0 <= k < |path| ensures 0x20 <= path[k] != 0x7f && path[k] != '\\' as int {
        if k < 3 { assert path[k] == MARK[k]; } else { assert path[k] == Checked(path)[k - 3]; }
      }
    }
  }

  lemma MarkedSegment(path: Bytes, i: nat, j: nat)
    requires HasPlainNames(Checked(path)) && IsSegment(path, i, j)
    ensures IsPlainName(path[i..j]) && (j - i <= 255 || (i == 0 && MARK <= path && j <= 258))
  {
    if MARK <= path {
      var rest := Checked(path);
      assert path[0] == 0xef && path[1] == 0xbb && path[2] == 0xbf;
      assert forall k | 0 <= k < |rest| :: rest[k] == path[k + 3];
      if i == 0 {
        assert IsSegment(rest, 0, j - 3) && path[0..j][0] == 0xef;
      } else {
        assert IsSegment(rest, i - 3, j - 3) && rest[i - 3..j - 3] == path[i..j];
      }
    }
  }

  lemma PathStarts(path: Bytes)
    requires path != [] && (IsSegment(path, 0, 0) ==> IsPlainName(path[0..0]))
    ensures path[0] != '/' as int
  {
    assert path[0..0] == [];
  }

  /** The limit of 255 bytes for a segment is one of 258 for a first segment with a mark. */
  lemma MarkIsNotCounted(host: Host)
    requires host.utf8(MARK + Letters(255)) && host.nfc(Letters(255))
    ensures GoodPath(host, MARK + Letters(255)) && IsSegment(MARK + Letters(255), 0, 258)
  {
    var path := MARK + Letters(255);
    assert Checked(path) == Letters(255);
    forall i, j | 0 <= i <= j <= 255 && IsSegment(Letters(255), i, j) ensures IsPlainName(Letters(255)[i..j]) && j - i <= 255 {
      OneSegment(i, j);
    }
    GoodPathsAre(host, path);
  }

  lemma OneSegment(i: nat, j: nat)
    requires IsSegment(Letters(255), i, j)
    ensures i == 0 && j == 255 && IsPlainName(Letters(255)[i..j])
  {
    var t := Letters(255);
    assert forall k | 0 <= k < 255 :: t[k] == 'a' as int;
    assert t[0..255][0] == 'a' as int;
  }

  function Letters(n: nat): (t: Bytes)
    ensures |t| == n && forall k | 0 <= k < n :: t[k] == 'a' as int
  {
    seq(n, _ => 'a' as int)
  }
}
