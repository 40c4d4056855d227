/** Path-string helpers: the WSL <-> Windows translations used by the analysis
    script and the desktop app, the drag URL, and the `os.path` pieces
    (`splitext`, `basename`) that the indexers and filters depend on. */
module Paths {
  import opened Strings

  const MntPrefix: string := "/mnt/"

  /** True for the separators of Windows paths (`ntpath`): backslash and slash. */
  predicate IsWindowsSep(c: char) { c == '\\' || c == '/' }

  /** True for the separator of POSIX paths (`posixpath`). */
  predicate IsPosixSep(c: char) { c == '/' }

  /** `"/mnt/" + t` splits at '/' into "", "mnt" and the pieces of `t`. */
  lemma SplitMnt(t: string)
    ensures Split(MntPrefix + t, '/') == ["", "mnt"] + Split(t, '/')
  {
    assert MntPrefix + t == "" + ['/'] + ("mnt" + ['/'] + t);
    SplitAfterPiece("", '/', "mnt" + ['/'] + t);
    SplitAfterPiece("mnt", '/', t);
  }

  lemma MntParts(p: string)
    requires StartsWith(p, MntPrefix)
    ensures p == MntPrefix + p[|MntPrefix|..]
    ensures Split(p, '/') == ["", "mnt"] + Split(p[|MntPrefix|..], '/')
  {
    assert p == MntPrefix + p[|MntPrefix|..];
    SplitMnt(p[|MntPrefix|..]);
  }

  /** The "/mnt/" to drive-letter translation with separator `sep`: "/mnt/d/a/b"
      becomes "D:" + sep + "a" + sep + "b"; anything not under "/mnt/" is returned
      as it is. The analysis script writes it with '/', both apps with '\'. */
  function DriveForm(p: string, sep: char): (r: string)
    ensures !StartsWith(p, MntPrefix) ==> r == p
    ensures StartsWith(p, MntPrefix) ==>
      var t := Split(p[|MntPrefix|..], '/');
      r == Upper(t[0]) + [':', sep] + Join(t[1..], sep)
  {
    if StartsWith(p, MntPrefix) then
      MntParts(p);
      var parts := Split(p, '/');
      assert parts[3..] == Split(p[|MntPrefix|..], '/')[1..];
      Upper(parts[2]) + [':', sep] + Join(parts[3..], sep)
    else p
  }

  /** `wsl_path_to_windows` of the analysis script: "/mnt/d/a/b" becomes "D:/a/b". */
  function WslToWindows(p: string): string {
    DriveForm(p, '/')
  }

  /** `windows_path_to_wsl` of the analysis script: a path whose second character
      is ':' becomes "/mnt/" + lower-cased drive + the rest with '\' turned to '/'. */
  function WindowsToWsl(p: string): (r: string)
    ensures !(|p| >= 2 && p[1] == ':') ==> r == p
    ensures |p| >= 2 && p[1] == ':' ==>
      |r| == |p| + 4 && StartsWith(r, MntPrefix) && r[|MntPrefix|] == LowerChar(p[0]) && '\\' !in r[|MntPrefix| + 1..]
  {
    if |p| >= 2 && p[1] == ':' then
      MntPrefix + [LowerChar(p[0])] + Replace(p[2..], '\\', '/')
    else p
  }

  /** A Windows path `d:` + separator + rest survives the trip to WSL and back,
      with the drive upper-cased and every '\' turned into '/'. */
  lemma {:induction false} WindowsWslRoundTrip(d: char, sep: char, rest: string)
    requires IsWindowsSep(sep) && d != '/'
    ensures WslToWindows(WindowsToWsl([d, ':', sep] + rest))
         == [UpperChar(d)] + ":/" + Replace(rest, '\\', '/')
  {
    var p := [d, ':', sep] + rest;
    var r := Replace(rest, '\\', '/');
    assert p[2..] == [sep] + rest;
    assert Replace(p[2..], '\\', '/') == ['/'] + r;
    var w := WindowsToWsl(p);
    assert w == MntPrefix + ([LowerChar(d)] + ['/'] + r);
    assert StartsWith(w, MntPrefix);
    assert w[|MntPrefix|..] == [LowerChar(d)] + ['/'] + r;
    SplitAfterPiece([LowerChar(d)], '/', r);
    var t := Split(w[|MntPrefix|..], '/');
    assert t == [[LowerChar(d)]] + Split(r, '/');
    assert t[1..] == Split(r, '/');
    JoinSplit(r, '/');
    assert Upper([LowerChar(d)]) == [UpperChar(d)];
  }

  /** The path rewrite of the desktop app's Essentia worker: backslashes become
      slashes first, then a drive prefix "d:" becomes "/mnt/d". */
  function WorkerWslPath(p: string): (r: string)
    ensures '\\' !in r
  {
    var q := Replace(p, '\\', '/');
    if |q| >= 2 && q[1] == ':' then MntPrefix + [LowerChar(q[0])] + q[2..] else q
  }

  /** For a drive path not starting with a backslash, the worker's rewrite and the
      script's `windows_path_to_wsl` agree; for any other path the worker still
      turns backslashes into slashes, where the script leaves the path alone. */
  lemma WorkerAgreesWithScript(p: string)
    ensures |p| >= 2 && p[1] == ':' && p[0] != '\\' ==> WorkerWslPath(p) == WindowsToWsl(p)
    ensures !(|p| >= 2 && p[1] == ':') ==> WorkerWslPath(p) == Replace(WindowsToWsl(p), '\\', '/')
  {
    if |p| >= 2 && p[1] == ':' && p[0] != '\\' {
      assert Replace(p, '\\', '/')[2..] == Replace(p[2..], '\\', '/');
    }
  }

  /** The database-path rewrite in the analysis script's `main`: only a path
      beginning "D:" or "d:" is translated to its WSL form. */
  function ScriptDbPath(p: string): (r: string)
    ensures (StartsWith(p, "D:") || StartsWith(p, "d:")) ==> r == MntPrefix + "d" + Replace(p[2..], '\\', '/')
    ensures !(StartsWith(p, "D:") || StartsWith(p, "d:")) ==> r == p
  {
    if StartsWith(p, "D:") || StartsWith(p, "d:") then WindowsToWsl(p) else p
  }

  /** `SampleList.wsl_to_windows_path` (desktop app and the older app):
      "/mnt/d/a/b" becomes "D:\a\b". The translation of a "/mnt/" path keeps no
      '/', and it differs from the script's form only in the separator. */
  function WslToWindowsBackslash(p: string): (r: string)
    ensures !StartsWith(p, MntPrefix) ==> r == p
    ensures StartsWith(p, MntPrefix) ==> '/' !in r
    ensures Replace(r, '\\', '/') == Replace(WslToWindows(p), '\\', '/')
  {
    if StartsWith(p, MntPrefix) then
      var t := Split(p[|MntPrefix|..], '/');
      JoinAvoids(t[1..], '\\', '/');
      assert '/' !in Upper(t[0]);
      DriveFormsAgree(Upper(t[0]), t[1..]);
      DriveForm(p, '\\')
    else p
  }

  /** The URL the older app puts on a drag: "file:///" + the Windows path with
      '\' turned into '/'. */
  function DragUrl(p: string): string {
    "file:///" + Replace(WslToWindowsBackslash(p), '\\', '/')
  }

  /** The drag URL is the script's slash-form translation with backslashes turned
      into slashes, for every path; "/mnt/d/a/b" thus gives "file:///D:/a/b". */
  lemma DragUrlUsesSlashForm(p: string)
    ensures DragUrl(p) == "file:///" + Replace(WslToWindows(p), '\\', '/')
    ensures StartsWith(p, MntPrefix) && '\\' !in p ==> DragUrl(p) == "file:///" + WslToWindows(p)
  {
    if StartsWith(p, MntPrefix) && '\\' !in p {
      SlashFormHasNoBackslash(p);
    }
  }

  lemma DriveFormsAgree(u: string, t: seq<string>)
    ensures Replace(u + ":\\" + Join(t, '\\'), '\\', '/') == Replace(u + ":/" + Join(t, '/'), '\\', '/')
  {
    ReplaceJoin(t, '\\', '/');
    ReplaceAppend(u + ":\\", Join(t, '\\'), '\\', '/');
    ReplaceAppend(u + ":/", Join(t, '/'), '\\', '/');
    ReplaceAppend(u, ":\\", '\\', '/');
    ReplaceAppend(u, ":/", '\\', '/');
  }

  lemma SlashFormHasNoBackslash(p: string)
    requires StartsWith(p, MntPrefix) && '\\' !in p
    ensures Replace(WslToWindows(p), '\\', '/') == WslToWindows(p)
  {
    var rest := p[|MntPrefix|..];
    var t := Split(rest, '/');
    SplitPiecesFrom(rest, '/', '\\');
    JoinAvoids(t[1..], '/', '\\');
    var w := WslToWindows(p);
    assert '\\' !in w;
  }

  /** A character absent from a string is absent from every piece of its split. */
  lemma {:induction false} SplitPiecesFrom(s: string, c: char, x: char)
    requires x !in s
    ensures forall j :: 0 <= j < |Split(s, c)| ==> x !in Split(s, c)[j]
    decreases |s|
  {
    if |s| > 0 {
      SplitPiecesFrom(s[1..], c, x);
    }
  }

  // ---------------------------------------------------------------- os.path

  /** Index of the last character of `s` satisfying `p`, or -1. */
  function LastIndexWhere(s: string, p: char -> bool): (k: int)
    ensures -1 <= k < |s|
    ensures k >= 0 ==> p(s[k])
    ensures forall j :: k < j < |s| ==> !p(s[j])
    decreases |s|
  {
    if |s| == 0 then -1
    else if p(s[|s| - 1]) then |s| - 1
    else LastIndexWhere(s[..|s| - 1], p)
  }

  /** `d` is where the extension of `p` starts: the last '.', with no separator
      from there on, and some character other than '.' earlier in the same name. */
  predicate ExtensionDot(p: string, isSep: char -> bool, d: int) {
    && 0 <= d < |p| && p[d] == '.'
    && (forall j :: d <= j < |p| ==> !isSep(p[j]))
    && (forall j :: d < j < |p| ==> p[j] != '.')
    && exists k :: 0 <= k < d && p[k] != '.' && forall j :: k <= j < d ==> !isSep(p[j])
  }

  /** The extension part of `os.path.splitext(p)`: from the last '.' after the last
      separator, provided the file name has a character other than '.' before it;
      otherwise "". */
  function SplitExt(p: string, isSep: char -> bool): (ext: string)
    ensures ext == "" || (ext[0] == '.' && EndsWith(p, ext))
    ensures forall i :: 0 <= i < |ext| ==> !isSep(ext[i])
    ensures |ext| > 0 ==> '.' !in ext[1..]
    ensures |ext| > 0 <==> exists d :: ExtensionDot(p, isSep, d)
    ensures forall d :: ExtensionDot(p, isSep, d) ==> ext == p[d..]
  {
    var sepIndex := LastIndexWhere(p, isSep);
    var dotIndex := LastIndexWhere(p, c => c == '.');
    ExtensionDotIsLast(p, isSep, sepIndex, dotIndex);
    if dotIndex > sepIndex && exists k :: sepIndex + 1 <= k < dotIndex && p[k] != '.'
    then p[dotIndex..]
    else ""
  }

  /** The extension dot is the last '.' and lies past the last separator, and it
      exists exactly when `splitext`'s test succeeds. */
  lemma ExtensionDotIsLast(p: string, isSep: char -> bool, sepIndex: int, dotIndex: int)
    requires sepIndex == LastIndexWhere(p, isSep)
    requires dotIndex == LastIndexWhere(p, c => c == '.')
    ensures forall d :: ExtensionDot(p, isSep, d) ==> d == dotIndex
    ensures (exists d :: ExtensionDot(p, isSep, d)) <==>
      dotIndex > sepIndex && exists k :: sepIndex + 1 <= k < dotIndex && p[k] != '.'
  {
    forall d | ExtensionDot(p, isSep, d)
      ensures d == dotIndex && dotIndex > sepIndex && exists k :: sepIndex + 1 <= k < dotIndex && p[k] != '.'
    {
      var k :| 0 <= k < d && p[k] != '.' && forall j :: k <= j < d ==> !isSep(p[j]);
      assert sepIndex < k;
    }
    if dotIndex > sepIndex && exists k :: sepIndex + 1 <= k < dotIndex && p[k] != '.' {
      var k :| sepIndex + 1 <= k < dotIndex && p[k] != '.';
      assert ExtensionDot(p, isSep, dotIndex);
    }
  }

  /** `os.path.basename(p)`: what follows the last separator. */
  function Basename(p: string, isSep: char -> bool): (b: string)
    ensures EndsWith(p, b)
    ensures forall i :: 0 <= i < |b| ==> !isSep(b[i])
    ensures |b| < |p| ==> isSep(p[|p| - |b| - 1])
  {
    p[LastIndexWhere(p, isSep) + 1..]
  }
}
