/**
 * The front controller index.php: the setup redirect, the normalisation of
 * the request URI, and the order in which a request goes to the setup page,
 * the API router, an admin asset or page, a public static file, or the
 * public index. The filesystem is the set of regular files and the set of
 * directories under the installation root `root` (`__DIR__`).
 */
module FrontController {
  import opened Wrappers
  import opened PhpStrings

  /** The paths that exist: `file_exists` holds for both sets, `is_file` only for `files`. */
  datatype FileSystem = FileSystem(files: set<string>, dirs: set<string>)

  predicate Exists(fs: FileSystem, path: string) {
    path in fs.files || path in fs.dirs
  }

  /** Where a request ends up. */
  datatype Target =
    | RedirectToSetup                          // Location: /setup.php
    | SetupPage                                // setup.php
    | ApiRouter                                // api/index.php
    | AdminAsset(path: string)                 // a file under admin/assets/, cached for a year
    | AdminPage(path: string)                  // an admin PHP page
    | StaticFile(path: string, cacheable: bool) // a public file; `cacheable` adds `immutable`
    | PublicIndex                              // public/index.php

  // ---------------------------------------------------------------------------
  // Setup redirect
  // ---------------------------------------------------------------------------

  /** Setup is needed when the config file is missing (None) or smaller than 500 bytes. */
  predicate NeedsSetup(configSize: Option<int>) {
    configSize.None? || configSize.value < 500
  }

  /**
   * `$needsSetup && !strpos($uri, '/setup.php')`: `strpos` returns the
   * offset or false, and `!` treats offset 0 like false.
   */
  predicate SetupRedirect(needsSetup: bool, uri: string) {
    needsSetup && (Find(uri, "/setup.php").None? || Find(uri, "/setup.php") == Some(0))
  }

  /**
   * As written, a request for `/setup.php` itself is redirected while setup
   * is needed, because the match sits at offset 0; the same page under a
   * longer path is not.
   */
  lemma SetupPageRedirected(rest: string)
    ensures SetupRedirect(true, "/setup.php" + rest)
    ensures !SetupRedirect(true, "/x/setup.php")
  {
    var u := "/setup.php" + rest;
    assert OccursAt(u, "/setup.php", 0) by { assert u[..10] == "/setup.php"; }
    assert Find(u, "/setup.php") == Some(0);
    var v := "/x/setup.php";
    assert OccursAt(v, "/setup.php", 2) by { assert v[2..12] == "/setup.php"; }
    assert !OccursAt(v, "/setup.php", 0) by { assert v[1] != "/setup.php"[1]; }
    assert !OccursAt(v, "/setup.php", 1) by { assert v[1] != '/'; }
  }

  // ---------------------------------------------------------------------------
  // URI normalisation
  // ---------------------------------------------------------------------------

  predicate IsSlash(c: char) {
    c == '/'
  }

  /**
   * `ltrim(strtok($uri, '?'), '/')`. `strtok` returns false for a URI made
   * only of '?', which `ltrim` turns into "".
   */
  function Normalize(uri: string): (r: string)
    ensures '?' !in r
    ensures |r| > 0 ==> r[0] != '/'
  {
    var token := Strtok(uri, '?');
    var path := if token.Some? then token.value else "";
    var r := TrimLeft(path, IsSlash);
    assert forall i :: 0 <= i < |r| ==> r[i] == path[|path| - |r| + i];
    r
  }

  /** Normalising twice changes nothing. */
  lemma NormalizeIdempotent(uri: string)
    ensures Normalize(Normalize(uri)) == Normalize(uri)
  {
    var n := Normalize(uri);
    if |n| > 0 {
      StrtokAtToken(n, '?');
      WholeToken(n);
      assert TrimLeft(n, IsSlash) == n;
    } else {
      assert Strtok(n, '?').None?;
    }
  }

  /** A string without '?' is a single token. */
  lemma WholeToken(s: string)
    requires '?' !in s
    ensures TakeUntil(s, '?') == s
  {
    TakeUntilAppend(s, "", '?');
    assert s + "" == s;
  }

  /** A path with a query string loses the query and its leading slash. */
  lemma NormalizePathAndQuery(p: string, q: string)
    requires '?' !in p && (|p| == 0 || p[0] != '/')
    ensures Normalize("/" + p + "?" + q) == p
  {
    PathToken("/" + p, q);
    assert ("/" + p)[1..] == p;
  }

  /** The token of `head?q` is `head` when `head` starts a path. */
  lemma PathToken(head: string, q: string)
    requires '?' !in head && |head| > 0 && head[0] == '/'
    ensures Strtok(head + "?" + q, '?') == Some(head)
  {
    var u := head + ("?" + q);
    assert head + "?" + q == u;
    TakeUntilAppend(head, "?" + q, '?');
    assert TakeUntil("?" + q, '?') == "";
    StrtokAtToken(u, '?');
  }

  /**
   * As written, `strtok` skips leading delimiters, so a URI that starts
   * with '?' keeps its query text as the path.
   */
  lemma QueryOnlyUriKeepsQuery(q: string)
    requires '?' !in q && '/' !in q && |q| > 0
    ensures Normalize("?" + q) == q
  {
    var u := "?" + q;
    assert u[1..] == q;
    StrtokSkip(u, '?');
    StrtokAtToken(q, '?');
    WholeToken(q);
    assert TrimLeft(q, IsSlash) == q;
  }

  // ---------------------------------------------------------------------------
  // Admin file mapping
  // ---------------------------------------------------------------------------

  /** `preg_match('/\.php$/', $f)`: ends in ".php", or does so before a final "\n". */
  predicate PhpSuffix(f: string) {
    EndsWith(f, ".php") || EndsWith(Chomp(f), ".php")
  }

  /**
   * The admin script for what is left after `str_replace('admin/', '', ...)`:
   * `tiles.php` for an `empty()` name, otherwise the name with `.php`
   * appended unless the pattern already matches.
   */
  function AdminScript(f: string): (r: string)
    ensures PhpSuffix(r)
    ensures IsEmptyString(f) ==> r == "tiles.php"
    ensures !IsEmptyString(f) && PhpSuffix(f) ==> r == f
    ensures !IsEmptyString(f) && !PhpSuffix(f) ==> r == f + ".php"
  {
    var name := if IsEmptyString(f) then "tiles.php" else f;
    if PhpSuffix(name) then name
    else
      assert EndsWith(name + ".php", ".php") by { assert (name + ".php")[|name|..] == ".php"; }
      name + ".php"
  }

  /** What `str_replace` leaves of an admin URI. */
  function AdminName(n: string): string {
    ReplaceAll(n, "admin/", "")
  }

  /**
   * The admin branch: an existing asset under `admin/assets/`, else an
   * existing admin script, else nothing (the request falls through).
   */
  function AdminRoute(n: string, root: string, fs: FileSystem): (r: Option<Target>)
    ensures r.Some? ==> StartsWith(n, "admin/")
    ensures r.Some? ==> (r.value.AdminAsset? || r.value.AdminPage?) && Exists(fs, r.value.path)
    ensures r.Some? && r.value.AdminAsset? ==>
              StartsWith(AdminName(n), "assets/") && r.value.path == root + "/admin/" + AdminName(n)
    ensures r.Some? && r.value.AdminPage? ==> r.value.path == root + "/admin/" + AdminScript(AdminName(n))
    ensures StartsWith(n, "admin/") && Exists(fs, root + "/admin/" + AdminScript(AdminName(n))) ==> r.Some?
    ensures StartsWith(n, "admin/") && StartsWith(AdminName(n), "assets/") && Exists(fs, root + "/admin/" + AdminName(n))
            ==> r == Some(AdminAsset(root + "/admin/" + AdminName(n)))
    ensures StartsWith(n, "admin/") && !(StartsWith(AdminName(n), "assets/") && Exists(fs, root + "/admin/" + AdminName(n)))
            && Exists(fs, root + "/admin/" + AdminScript(AdminName(n)))
            ==> r == Some(AdminPage(root + "/admin/" + AdminScript(AdminName(n))))
  {
    if !StartsWith(n, "admin/") then None
    else
      var f := AdminName(n);
      var asset := root + "/admin/" + f;
      var page := root + "/admin/" + AdminScript(f);
      if StartsWith(f, "assets/") && Exists(fs, asset) then Some(AdminAsset(asset))
      else if Exists(fs, page) then Some(AdminPage(page))
      else None
  }

  /** Removing a leading `admin/` is the first step of the replacement. */
  lemma ReplaceLeading(s: string)
    ensures AdminName("admin/" + s) == AdminName(s)
  {
    var t := "admin/" + s;
    assert t[..6] == "admin/";
    assert t[6..] == s;
  }

  /** A byte that does not start an `admin/` is kept. */
  lemma ReplaceKeeps(c: char, s: string, i: nat)
    requires i < 6 && i <= |s| && ([c] + s)[i] != "admin/"[i]
    ensures AdminName([c] + s) == [c] + AdminName(s)
  {
    var t := [c] + s;
    assert t[1..] == s;
    if |t| >= 6 {
      assert t[..6][i] == t[i];
    } else {
      assert AdminName(s) == s;
    }
  }

  /**
   * Every occurrence of `admin/` is removed, not only the prefix, and in a
   * single pass: the `admin/` that the removal leaves behind in
   * `admin/adadmin/...` stays.
   */
  lemma AdminReplacementSinglePass(rest: string)
    requires |rest| < 6
    ensures AdminName("admin/" + ("ad" + ("admin/" + rest))) == "ad" + rest
  {
    var tail := "admin/" + rest;
    calc {
      AdminName("admin/" + ("ad" + tail));
    == { ReplaceLeading("ad" + tail); }
      AdminName("ad" + tail);
    == { assert "ad" + tail == ['a'] + ("d" + tail); ReplaceKeeps('a', "d" + tail, 2); }
      ['a'] + AdminName("d" + tail);
    == { assert "d" + tail == ['d'] + tail; ReplaceKeeps('d', tail, 0); }
      ['a'] + (['d'] + AdminName(tail));
    == { ReplaceLeading(rest); }
      ['a'] + (['d'] + AdminName(rest));
    == { assert AdminName(rest) == rest; }
      "ad" + rest;
    }
  }

  /** So `admin/adadmin/min/x` loads the admin script `admin/x.php`. */
  lemma AdminReplacementExample(rest: string)
    requires rest == "min/x"
    ensures AdminScript(AdminName("admin/" + ("ad" + ("admin/" + rest)))) == "admin/x.php"
  {
    AdminReplacementSinglePass(rest);
    var f := "ad" + rest;
    assert f == "admin/x";
    assert !EndsWith(f, ".php") by { assert f[3] != ".php"[0]; }
    assert Chomp(f) == f;
  }

  /** `admin/0` loads the tiles page: `empty("0")` holds. */
  lemma AdminZeroIsTiles()
    ensures AdminScript(AdminName("admin/0")) == "tiles.php"
  {
    ReplaceLeading("0");
    assert "admin/" + "0" == "admin/0";
    assert AdminName("0") == "0";
  }

  // ---------------------------------------------------------------------------
  // Static files and dispatch
  // ---------------------------------------------------------------------------

  /** The extensions a public file is served with `immutable` caching for. */
  const CacheableExtensions: set<string> :=
    {"jpg", "jpeg", "png", "gif", "webp", "css", "js", "woff", "woff2", "ico"}

  /** The public file a normalised URI names. */
  function PublicPath(root: string, n: string): string {
    root + "/public/" + n
  }

  /**
   * The routing of a normalised URI, in order: `setup.php`, `api/`, the
   * admin branch, a non-`empty()` path naming a regular public file, and
   * otherwise the public index.
   */
  function Route(n: string, root: string, fs: FileSystem): (r: Target)
    ensures r != RedirectToSetup
    ensures r == SetupPage <==> StartsWith(n, "setup.php")
    ensures r == ApiRouter <==> !StartsWith(n, "setup.php") && StartsWith(n, "api/")
    ensures (r.AdminAsset? || r.AdminPage?) <==>
              !StartsWith(n, "setup.php") && !StartsWith(n, "api/") && AdminRoute(n, root, fs).Some?
    ensures r.AdminAsset? || r.AdminPage? ==> AdminRoute(n, root, fs) == Some(r)
    ensures r.StaticFile? ==>
              !IsEmptyString(n) && AdminRoute(n, root, fs).None? && r.path == PublicPath(root, n)
              && r.path in fs.files && (r.cacheable <==> Extension(r.path) in CacheableExtensions)
    ensures r == PublicIndex <==>
              !StartsWith(n, "setup.php") && !StartsWith(n, "api/") && AdminRoute(n, root, fs).None?
              && (IsEmptyString(n) || PublicPath(root, n) !in fs.files)
  {
    if StartsWith(n, "setup.php") || n == "setup.php" then SetupPage
    else if StartsWith(n, "api/") then ApiRouter
    else
      var admin := AdminRoute(n, root, fs);
      if admin.Some? then admin.value
      else if !IsEmptyString(n) && PublicPath(root, n) in fs.files then
        StaticFile(PublicPath(root, n), Extension(PublicPath(root, n)) in CacheableExtensions)
      else PublicIndex
  }

  /** index.php as a whole: the setup redirect first, then the routing of the normalised URI. */
  function Dispatch(needsSetup: bool, uri: string, root: string, fs: FileSystem): (r: Target)
    ensures r == RedirectToSetup <==> SetupRedirect(needsSetup, uri)
    ensures !SetupRedirect(needsSetup, uri) ==> r == Route(Normalize(uri), root, fs)
  {
    if SetupRedirect(needsSetup, uri) then RedirectToSetup else Route(Normalize(uri), root, fs)
  }

  /**
   * An admin URI whose asset and script are both missing falls through to
   * the public files: the same path under `public/` is served if it exists.
   */
  lemma MissingAdminFallsThrough(n: string, root: string, fs: FileSystem)
    requires StartsWith(n, "admin/")
    requires !Exists(fs, root + "/admin/" + AdminName(n))
    requires !Exists(fs, root + "/admin/" + AdminScript(AdminName(n)))
    requires PublicPath(root, n) in fs.files
    ensures Route(n, root, fs).StaticFile? && Route(n, root, fs).path == PublicPath(root, n)
  {
    AdminPrefix(n);
    AdminMissing(n, root, fs);
    var r := Route(n, root, fs);
    assert r != SetupPage && r != ApiRouter && r != PublicIndex && !r.AdminAsset? && !r.AdminPage?;
  }

  /** An `admin/` path is neither the setup page, nor an API call, nor `empty()`. */
  lemma AdminPrefix(n: string)
    requires StartsWith(n, "admin/")
    ensures !StartsWith(n, "setup.php") && !StartsWith(n, "api/") && !IsEmptyString(n)
  {
    assert n[..6] == "admin/";
    assert n[0] != "setup.php"[0];
    assert n[1] != "api/"[1];
  }

  /** With neither the asset nor the script present, the admin branch yields nothing. */
  lemma AdminMissing(n: string, root: string, fs: FileSystem)
    requires !Exists(fs, root + "/admin/" + AdminName(n))
    requires !Exists(fs, root + "/admin/" + AdminScript(AdminName(n)))
    ensures AdminRoute(n, root, fs).None?
  {
  }

  /** A top-level public file `stem.ext` is cached as immutable exactly for the listed extensions. */
  lemma StaticCaching(n: string, root: string, fs: FileSystem, stem: string, ext: string)
    requires n == stem + "." + ext
    requires '/' !in stem && '/' !in ext && '.' !in ext
    requires Route(n, root, fs).StaticFile?
    ensures Route(n, root, fs).cacheable <==> ext in CacheableExtensions
  {
    PublicExtension(root, stem, ext);
  }

  /** The extension `pathinfo` finds for the public file `stem.ext`. */
  lemma PublicExtension(root: string, stem: string, ext: string)
    requires '/' !in stem && '/' !in ext && '.' !in ext
    ensures Extension(PublicPath(root, stem + "." + ext)) == ext
  {
    var n := stem + "." + ext;
    assert PublicPath(root, n) == (root + "/public") + "/" + n;
    assert '/' !in n by {
      forall i | 0 <= i < |n| ensures n[i] != '/' {
        if i < |stem| { assert n[i] == stem[i]; }
        else if i > |stem| { assert n[i] == ext[i - |stem| - 1]; }
      }
    }
    PathParts(root + "/public", n);
    NameParts(stem, ext);
  }
}
