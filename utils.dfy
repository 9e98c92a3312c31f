/** torchext/utils.py: the checkpoint file naming, retention and selection
    rules (with the file system reduced to a directory listing), the
    inclusive counter `range_step`, and `log_level_value`. */
module Utils {
  import opened Common
  import opened Strings
  import opened Data

  // =====================================================================
  // Decimal formatting: `"{:08d}".format(step)`

  predicate IsDigit(c: char)
  {
    '0' <= c <= '9'
  }

  predicate AllDigits(s: string)
  {
    forall i :: 0 <= i < |s| ==> IsDigit(s[i])
  }

  function DigitChar(d: nat): (c: char)
    requires d < 10
    ensures IsDigit(c) && c as int - '0' as int == d
  {
    ('0' as int + d) as char
  }

  /** The number a digit string denotes; leading zeros are allowed. */
  function DigitsValue(s: string): nat
    requires AllDigits(s)
  {
    if s == [] then 0 else 10 * DigitsValue(s[..|s| - 1]) + (s[|s| - 1] as int - '0' as int)
  }

  function Pow10(k: nat): (r: nat)
    ensures r >= 1
  {
    if k == 0 then 1 else 10 * Pow10(k - 1)
  }

  lemma Pow10Eight()
    ensures Pow10(8) == 100_000_000
  {
    assert Pow10(1) == 10;
    assert Pow10(2) == 100;
    assert Pow10(3) == 1000;
    assert Pow10(4) == 10000;
    assert Pow10(5) == 100000;
    assert Pow10(6) == 1000000;
    assert Pow10(7) == 10000000;
  }

  /** `str(n)` for a non-negative `n`: its decimal digits, with no leading
      zero except for 0 itself. */
  function Decimal(n: nat): (r: string)
    ensures |r| >= 1 && AllDigits(r)
    ensures r[0] == '0' <==> n == 0
    decreases n
  {
    if n < 10 then [DigitChar(n)] else Decimal(n / 10) + [DigitChar(n % 10)]
  }

  /** Reading the digits back gives the number. */
  lemma {:induction false} DecimalValue(n: nat)
    ensures DigitsValue(Decimal(n)) == n
    decreases n
  {
    if n >= 10 {
      DecimalValue(n / 10);
      var d := Decimal(n / 10);
      assert (d + [DigitChar(n % 10)])[..|d|] == d;
    }
  }

  /** `n` has at most `k` digits exactly when it is below `10^k`. */
  lemma {:induction false} DecimalLength(n: nat, k: nat)
    requires k >= 1
    ensures |Decimal(n)| <= k <==> n < Pow10(k)
    decreases n
  {
    assert Pow10(k) == 10 * Pow10(k - 1);
    if n >= 10 {
      assert n == 10 * (n / 10) + n % 10;
      if k == 1 {
        assert |Decimal(n)| == |Decimal(n / 10)| + 1;
      } else {
        DecimalLength(n / 10, k - 1);
      }
    }
  }

  function Zeros(n: nat): (r: string)
    ensures |r| == n && forall i :: 0 <= i < n ==> r[i] == '0'
  {
    seq(n, _ => '0')
  }

  lemma {:induction false} ZerosValue(z: nat)
    ensures AllDigits(Zeros(z)) && DigitsValue(Zeros(z)) == 0
  {
    if z > 0 {
      assert Zeros(z)[..z - 1] == Zeros(z - 1);
      ZerosValue(z - 1);
    }
  }

  /** Leading zeros do not change the value. */
  lemma {:induction false} LeadingZeros(z: nat, s: string)
    requires AllDigits(s)
    ensures AllDigits(Zeros(z) + s) && DigitsValue(Zeros(z) + s) == DigitsValue(s)
  {
    if s == [] {
      assert Zeros(z) + s == Zeros(z);
      ZerosValue(z);
    } else {
      var n := |s| - 1;
      LeadingZeros(z, s[..n]);
      assert (Zeros(z) + s)[..|Zeros(z) + s| - 1] == Zeros(z) + s[..n];
    }
  }

  /** `"{:08d}".format(n)` for a non-negative `n`: a digit string of at least
      eight characters denoting `n`, exactly eight when `n < 10^8`, and the
      plain decimal digits, with no padding, when it is larger. */
  function Padded8(n: nat): (r: string)
    ensures AllDigits(r) && DigitsValue(r) == n
    ensures |r| >= 8
    ensures |r| == 8 <==> n < 100_000_000
    ensures n >= 100_000_000 ==> r == Decimal(n)
  {
    var d := Decimal(n);
    DecimalValue(n);
    DecimalLength(n, 8);
    Pow10Eight();
    if |d| >= 8 then d
    else
      LeadingZeros(8 - |d|, d);
      Zeros(8 - |d|) + d
  }

  /** Between digit strings of one length, Python's string order is the
      numeric order, and equal strings are equal numbers. */
  lemma {:induction false} FixedWidthOrder(s: string, t: string)
    requires AllDigits(s) && AllDigits(t) && |s| == |t|
    ensures LexLess(s, t) <==> DigitsValue(s) < DigitsValue(t)
    ensures s == t <==> DigitsValue(s) == DigitsValue(t)
  {
    if s != [] {
      var n := |s| - 1;
      var s0, t0 := s[..n], t[..n];
      FixedWidthOrder(s0, t0);
      assert s == s0 + [s[n]] && t == t0 + [t[n]];
      LexLessSnoc(s0, s[n], t0, t[n]);
      var a, b := DigitsValue(s0), DigitsValue(t0);
      var d, e := s[n] as int - '0' as int, t[n] as int - '0' as int;
      assert DigitsValue(s) == 10 * a + d && 0 <= d <= 9;
      assert DigitsValue(t) == 10 * b + e && 0 <= e <= 9;
      if s0 == t0 {
        assert s == t <==> s[n] == t[n];
      } else {
        LexLessTotal(s0, t0);
        assert a != b;
        assert s != t;
      }
    }
  }

  // =====================================================================
  // Checkpoint file names

  const CheckpointFilePrefix: string := "checkpoint"

  /** What `glob("{dir}/checkpoint-*")` matches in a directory. */
  predicate IsCheckpointFile(name: string)
  {
    StartsWith(name, CheckpointFilePrefix + "-")
  }

  /** `"checkpoint-{:08d}.pt".format(step)`. */
  function CheckpointName(step: nat): (r: string)
    ensures IsCheckpointFile(r) && EndsWith(r, ".pt")
    ensures |r| == 22 <==> step < 100_000_000
  {
    var r := CheckpointFilePrefix + "-" + Padded8(step) + ".pt";
    assert r[..11] == CheckpointFilePrefix + "-";
    r
  }

  /** Between the `checkpoint-` prefix and the `.pt` suffix stand exactly the
      `{:08d}` digits of the step. */
  lemma CheckpointNameDigits(step: nat)
    ensures var r := CheckpointName(step);
      |r| == |Padded8(step)| + 14 && r[11..|r| - 3] == Padded8(step)
  {
    var r := CheckpointName(step);
    assert r == CheckpointFilePrefix + "-" + Padded8(step) + ".pt";
  }

  /** Different steps give different names. */
  lemma CheckpointNameInjective(a: nat, b: nat)
    requires CheckpointName(a) == CheckpointName(b)
    ensures a == b
  {
    var na, nb := CheckpointName(a), CheckpointName(b);
    assert |Padded8(a)| == |Padded8(b)|;
    assert Padded8(a) == na[11..|na| - 3];
    assert Padded8(b) == nb[11..|nb| - 3];
  }

  /** For steps below 10^8, sorting the names sorts the steps. */
  lemma CheckpointNameOrder(a: nat, b: nat)
    requires a < 100_000_000 && b < 100_000_000
    ensures LexLess(CheckpointName(a), CheckpointName(b)) <==> a < b
  {
    var p := CheckpointFilePrefix + "-";
    var pa, pb := Padded8(a), Padded8(b);
    assert CheckpointName(a) == p + (pa + ".pt");
    assert CheckpointName(b) == p + (pb + ".pt");
    FramedDigitsOrder(p, pa, pb, ".pt");
  }

  /** Digit strings of one length, framed by the same prefix and suffix,
      sort as their values. */
  lemma FramedDigitsOrder(p: string, s: string, t: string, q: string)
    requires AllDigits(s) && AllDigits(t) && |s| == |t|
    ensures LexLess(p + (s + q), p + (t + q)) <==> DigitsValue(s) < DigitsValue(t)
  {
    FixedWidthOrder(s, t);
    if s == t {
      LexLessIrreflexive(p + (s + q));
    } else {
      LexLessCommonPrefix(p, s + q, t + q);
      LexLessCommonSuffix(s, t, q);
    }
  }

  // =====================================================================
  // The model directory and the checkpoint files in it

  /** A directory listing names each entry once. */
  ghost predicate NoDuplicates(names: seq<string>)
  {
    forall x :: multiset(names)[x] <= 1
  }

  predicate AllSlashes(s: string)
  {
    forall i :: 0 <= i < |s| ==> s[i] == '/'
  }

  /** `s.rstrip('/')`: no trailing slash left. */
  function TrimSlashes(s: string): (r: string)
    ensures |r| <= |s| && (r == [] || r[|r| - 1] != '/')
  {
    if s != [] && s[|s| - 1] == '/' then TrimSlashes(s[..|s| - 1]) else s
  }

  /** What `rstrip('/')` removed is slashes only. */
  lemma {:induction false} TrimSlashesPrefix(s: string)
    ensures var r := TrimSlashes(s); r == s[..|r|] && AllSlashes(s[|r|..])
    decreases |s|
  {
    if s != [] && s[|s| - 1] == '/' {
      var r := TrimSlashes(s[..|s| - 1]);
      TrimSlashesPrefix(s[..|s| - 1]);
      assert s[|r|..] == s[..|s| - 1][|r|..] + ['/'];
    } else {
      assert s[|s|..] == [];
    }
  }

  /** The directory `glob` splits off the pattern `"{dir}/checkpoint-*"`
      (`os.path.split`) and puts before every match: `dir` without its
      trailing slashes, or the slashes themselves and one more when `dir` is
      nothing but slashes. For an empty `dir` the pattern is
      `/checkpoint-*`, so the glob searches the root directory. */
  function GlobDir(dir: string): (r: string)
    ensures dir == [] ==> r == "/"
  {
    // `(dir + "/").rstrip('/')` unless that is all slashes
    var t := TrimSlashes(dir);
    if t == [] then dir + "/" else t
  }

  /** The glob's directory is `dir` less any trailing slashes, and keeps a
      non-slash last character; a `dir` of slashes only (the root) gets one
      more. */
  lemma GlobDirSplit(dir: string)
    ensures AllSlashes(dir) ==> GlobDir(dir) == dir + "/"
    ensures !AllSlashes(dir) ==> var r := GlobDir(dir);
      r[|r| - 1] != '/' && dir == r + dir[|r|..] && AllSlashes(dir[|r|..])
  {
    var t := TrimSlashes(dir);
    TrimSlashesPrefix(dir);
    if t == [] {
      assert dir[0..] == dir;
    } else {
      assert !AllSlashes(dir) by {
        assert dir[|t| - 1] == t[|t| - 1];
      }
      assert dir == t + dir[|t|..];
    }
  }

  /** For a directory with no trailing slash, the glob reports the very
      path `os.path.join` gave `torch.save`. */
  lemma GlobDirIsDir(dir: string, name: string)
    requires dir != [] && dir[|dir| - 1] != '/'
    ensures JoinPath(GlobDir(dir), name) == JoinPath(dir, name)
  {
    assert !AllSlashes(dir);
    GlobDirSplit(dir);
  }

  /** The path the glob reports for an entry of the searched directory. */
  function PathIn(dir: string): string -> string
  {
    name => JoinPath(GlobDir(dir), name)
  }

  /** `glob.glob("{dir}/checkpoint-*")` on the listing of the directory it
      searches (see `GlobDir`): the paths of the checkpoint entries, in
      listing order. */
  function Globbed(dir: string, listing: seq<string>): seq<string>
  {
    Mapped(PathIn(dir), Filtered(IsCheckpointFile, listing))
  }

  lemma GlobbedSnoc(dir: string, listing: seq<string>, name: string)
    ensures Globbed(dir, listing + [name])
         == Globbed(dir, listing) + (if IsCheckpointFile(name) then [JoinPath(GlobDir(dir), name)] else [])
  {
    FilteredSnoc(IsCheckpointFile, listing, name);
    var f := Filtered(IsCheckpointFile, listing);
    if IsCheckpointFile(name) {
      MappedAppend(PathIn(dir), f, [name]);
    }
  }

  /** Every globbed path is the path of a checkpoint entry of the listing. */
  lemma GlobbedEntry(dir: string, listing: seq<string>, path: string) returns (name: string)
    requires path in Globbed(dir, listing)
    ensures name in listing && IsCheckpointFile(name) && path == JoinPath(GlobDir(dir), name)
  {
    var f := Filtered(IsCheckpointFile, listing);
    var i :| 0 <= i < |f| && Globbed(dir, listing)[i] == path;
    name := f[i];
    FilteredCount(IsCheckpointFile, listing);
    assert multiset(f)[name] > 0;
  }

  /** Every checkpoint entry of the listing is globbed. */
  lemma GlobbedHas(dir: string, listing: seq<string>, name: string)
    requires name in listing && IsCheckpointFile(name)
    ensures JoinPath(GlobDir(dir), name) in Globbed(dir, listing)
  {
    var f := Filtered(IsCheckpointFile, listing);
    FilteredCount(IsCheckpointFile, listing);
    assert name in multiset(f);
    var i :| 0 <= i < |f| && f[i] == name;
    assert Globbed(dir, listing)[i] == JoinPath(GlobDir(dir), name);
  }

  lemma NoDuplicatesSnoc(s: seq<string>, x: string)
    ensures NoDuplicates(s + [x]) <==> NoDuplicates(s) && x !in s
  {
    forall y ensures multiset(s + [x])[y] == multiset(s)[y] + (if y == x then 1 else 0) {
    }
    if NoDuplicates(s + [x]) {
      assert multiset(s + [x])[x] <= 1;
    }
  }

  lemma {:induction false} GlobbedNoDuplicates(dir: string, listing: seq<string>)
    requires NoDuplicates(listing)
    ensures NoDuplicates(Globbed(dir, listing))
  {
    if listing != [] {
      var init, last := listing[..|listing| - 1], listing[|listing| - 1];
      assert listing == init + [last];
      NoDuplicatesSnoc(init, last);
      GlobbedNoDuplicates(dir, init);
      GlobbedSnoc(dir, init, last);
      if IsCheckpointFile(last) {
        var g := Globbed(dir, init);
        var p := JoinPath(GlobDir(dir), last);
        assert p !in g by {
          forall q | q in g ensures q != p {
            var name := GlobbedEntry(dir, init, q);
            JoinPathInjective(GlobDir(dir), name, last);
          }
        }
        NoDuplicatesSnoc(g, p);
      } else {
        assert Globbed(dir, listing) == Globbed(dir, init) + [];
      }
    }
  }

  /** `get_checkpoint_filepaths`: the checkpoint paths, sorted. */
  function CheckpointFilepaths(dir: string, listing: seq<string>): (r: seq<string>)
    ensures Sorted(r) && multiset(r) == multiset(Globbed(dir, listing))
  {
    Sort(Globbed(dir, listing))
  }

  /** `load_checkpoint`'s choice: none when there is no checkpoint file,
      otherwise the last path in sorted order, which every other checkpoint
      path precedes. */
  function LoadCheckpoint(dir: string, listing: seq<string>): (r: Option<string>)
    ensures r.None? <==> forall i :: 0 <= i < |listing| ==> !IsCheckpointFile(listing[i])
    ensures r.Some? ==> r.value in CheckpointFilepaths(dir, listing)
    ensures r.Some? ==> forall p :: p in CheckpointFilepaths(dir, listing) ==> LexLessEq(p, r.value)
  {
    var paths := CheckpointFilepaths(dir, listing);
    FilteredEmpty(IsCheckpointFile, listing);
    assert |paths| == |Globbed(dir, listing)| by {
      assert |multiset(paths)| == |multiset(Globbed(dir, listing))|;
    }
    if paths == [] then None
    else
      SortedLastIsMax(paths);
      Some(paths[|paths| - 1])
  }

  /** The loaded checkpoint has the greatest step among the listed ones. */
  lemma LoadLatest(dir: string, listing: seq<string>, s: nat, t: nat)
    requires s < 100_000_000 && t < 100_000_000
    requires CheckpointName(t) in listing
    requires LoadCheckpoint(dir, listing) == Some(JoinPath(GlobDir(dir), CheckpointName(s)))
    ensures t <= s
  {
    var pt, ps := JoinPath(GlobDir(dir), CheckpointName(t)), JoinPath(GlobDir(dir), CheckpointName(s));
    var paths := CheckpointFilepaths(dir, listing);
    GlobbedHas(dir, listing, CheckpointName(t));
    assert pt in multiset(Globbed(dir, listing));
    assert pt in paths;
    assert LexLessEq(pt, ps);
    JoinPathOrder(GlobDir(dir), CheckpointName(t), CheckpointName(s));
    CheckpointNameOrder(t, s);
    if CheckpointName(t) == CheckpointName(s) {
      CheckpointNameInjective(t, s);
    }
  }

  // =====================================================================
  // Saving and retention

  predicate Truthy(x: Option<int>)
  {
    x.Some? && x.value != 0
  }

  /** `torch.save` to a name: the entry is created, or overwritten when it
      is already there. */
  function Written(listing: seq<string>, name: string): (r: seq<string>)
    ensures name in r
    ensures forall x :: x in r <==> x in listing || x == name
  {
    if name in listing then listing else listing + [name]
  }

  /** The searched directory after `torch.save` of checkpoint `step`:
      written there for a non-empty `dir`; for an empty `dir` the file goes
      to the working directory (`os.path.join("", name)` is `name`), which
      the glob does not search, so the listing is unchanged. */
  function Saved(dir: string, listing: seq<string>, step: nat): (r: seq<string>)
    ensures dir != [] ==> r == Written(listing, CheckpointName(step))
    ensures dir == [] ==> r == listing
  {
    if dir == [] then listing else Written(listing, CheckpointName(step))
  }

  /** `filepaths[:len(filepaths) - keep_max]` when `keep_max` is truthy and
      there are more than `keep_max` paths, otherwise nothing: a prefix that
      leaves exactly the last `keep_max` paths for a positive `keep_max`, and
      takes every path for a negative one. */
  function Doomed(paths: seq<string>, keepMax: Option<int>): (r: seq<string>)
    ensures |r| <= |paths| && r == paths[..|r|]
    ensures Truthy(keepMax) && 0 < keepMax.value < |paths| ==> |paths| - |r| == keepMax.value
    ensures Truthy(keepMax) && keepMax.value < 0 ==> r == paths
    ensures !Truthy(keepMax) || |paths| <= keepMax.value ==> r == []
  {
    if Truthy(keepMax) && |paths| > keepMax.value then
      var n := |paths| - keepMax.value;
      if n > |paths| then paths else paths[..n]
    else []
  }

  function NotIn(dir: string, doomed: seq<string>): string -> bool
  {
    name => JoinPath(GlobDir(dir), name) !in doomed
  }

  function NotAt(dir: string, path: string): string -> bool
  {
    name => JoinPath(GlobDir(dir), name) != path
  }

  /** The directory after the entries at the `doomed` paths are removed. */
  function Without(dir: string, listing: seq<string>, doomed: seq<string>): seq<string>
  {
    Filtered(NotIn(dir, doomed), listing)
  }

  /** `os.remove(path)`. */
  function Removed(dir: string, listing: seq<string>, path: string): seq<string>
  {
    Filtered(NotAt(dir, path), listing)
  }

  /** The directory after `save_checkpoint(dir, step, states, keep_max)`. */
  function AfterSave(dir: string, listing: seq<string>, step: nat, keepMax: Option<int>): seq<string>
  {
    var files := Saved(dir, listing, step);
    Without(dir, files, Doomed(CheckpointFilepaths(dir, files), keepMax))
  }

  /** `save_checkpoint` on a directory listing: write the checkpoint, list
      the checkpoint paths, and remove the oldest ones one by one. */
  method SaveCheckpoint(dir: string, listing: seq<string>, step: nat, keepMax: Option<int>)
    returns (after: seq<string>)
    ensures after == AfterSave(dir, listing, step, keepMax)
  {
    var name := CheckpointName(step);
    var files := listing;
    if dir != [] {
      files := if name in listing then listing else listing + [name];
    }
    var filepaths := CheckpointFilepaths(dir, files);
    FilteredAll(NotIn(dir, []), files);
    after := files;
    if Truthy(keepMax) && |filepaths| > keepMax.value {
      var n := |filepaths| - keepMax.value;
      var doomed := if n > |filepaths| then filepaths else filepaths[..n];
      assert doomed == Doomed(filepaths, keepMax);
      after := RemoveAll(dir, files, doomed);
    }
  }

  /** The removal loop: `os.remove` on each doomed path in turn. */
  method RemoveAll(dir: string, files: seq<string>, doomed: seq<string>) returns (after: seq<string>)
    ensures after == Without(dir, files, doomed)
  {
    FilteredAll(NotIn(dir, []), files);
    after := files;
    assert doomed[..0] == [];
    for j := 0 to |doomed|
      invariant after == Without(dir, files, doomed[..j])
    {
      RemoveStep(dir, files, doomed, j);
      after := Removed(dir, after, doomed[j]);
    }
    assert doomed[..|doomed|] == doomed;
  }

  /** Removing one more doomed path extends the removed prefix by one. */
  lemma RemoveStep(dir: string, files: seq<string>, doomed: seq<string>, j: nat)
    requires j < |doomed|
    ensures Removed(dir, Without(dir, files, doomed[..j]), doomed[j]) == Without(dir, files, doomed[..j + 1])
  {
    assert doomed[..j + 1] == doomed[..j] + [doomed[j]];
    forall x
      ensures NotIn(dir, doomed[..j + 1])(x) == (NotAt(dir, doomed[j])(x) && NotIn(dir, doomed[..j])(x))
    {
    }
    FilteredTwice(NotAt(dir, doomed[j]), NotIn(dir, doomed[..j]), NotIn(dir, doomed[..j + 1]), files);
  }

  function NotListed(doomed: seq<string>): string -> bool
  {
    path => path !in doomed
  }

  /** Removing the entries at some paths takes exactly those paths out of
      the glob, and keeps the rest in order. */
  lemma GlobbedWithout(dir: string, files: seq<string>, doomed: seq<string>)
    ensures Globbed(dir, Without(dir, files, doomed)) == Filtered(NotListed(doomed), Globbed(dir, files))
  {
    var both := (name: string) => IsCheckpointFile(name) && NotIn(dir, doomed)(name);
    FilteredTwice(IsCheckpointFile, NotIn(dir, doomed), both, files);
    FilteredTwice(NotIn(dir, doomed), IsCheckpointFile, both, files);
    FilteredMapped(PathIn(dir), NotIn(dir, doomed), NotListed(doomed), Filtered(IsCheckpointFile, files));
  }

  /** Taking out the paths of a prefix of a duplicate-free sorting leaves
      the rest of the sorting. */
  lemma DropPrefixCount(globbed: seq<string>, paths: seq<string>, n: nat)
    requires NoDuplicates(globbed) && multiset(paths) == multiset(globbed) && n <= |paths|
    ensures multiset(Filtered(NotListed(paths[..n]), globbed)) == multiset(paths[n..])
  {
    var doomed, rest := paths[..n], paths[n..];
    var kept := Filtered(NotListed(doomed), globbed);
    FilteredCount(NotListed(doomed), globbed);
    assert paths == doomed + rest;
    assert multiset(paths) == multiset(doomed) + multiset(rest);
    forall x ensures multiset(kept)[x] == multiset(rest)[x] {
      assert NotListed(doomed)(x) == (x !in doomed);
      if x in doomed {
        assert multiset(doomed)[x] >= 1 && multiset(globbed)[x] <= 1;
      } else {
        assert multiset(doomed)[x] == 0;
      }
    }
    assert multiset(kept) == multiset(rest);
  }

  lemma SortedSuffix(s: seq<string>, k: nat)
    requires Sorted(s) && k <= |s|
    ensures Sorted(s[k..])
  {
    forall i, j | 0 <= i < j < |s| - k ensures LexLessEq(s[k..][i], s[k..][j]) {
      assert s[k..][i] == s[k + i] && s[k..][j] == s[k + j];
    }
  }

  /** After a save, the checkpoint paths left are the sorted paths that
      were there right after writing, less the doomed prefix. */
  lemma RetainSuffix(dir: string, listing: seq<string>, step: nat, keepMax: Option<int>)
    requires NoDuplicates(listing)
    ensures var paths := CheckpointFilepaths(dir, Saved(dir, listing, step));
      CheckpointFilepaths(dir, AfterSave(dir, listing, step, keepMax)) == paths[|Doomed(paths, keepMax)|..]
  {
    var name := CheckpointName(step);
    var files := Saved(dir, listing, step);
    var paths := CheckpointFilepaths(dir, files);
    var doomed := Doomed(paths, keepMax);
    var globbed := Globbed(dir, files);
    var rest := paths[|doomed|..];
    if dir != [] && name !in listing {
      NoDuplicatesSnoc(listing, name);
    }
    GlobbedNoDuplicates(dir, files);
    GlobbedWithout(dir, files, doomed);
    DropPrefixCount(globbed, paths, |doomed|);
    SortedSuffix(paths, |doomed|);
    SortedUnique(CheckpointFilepaths(dir, AfterSave(dir, listing, step, keepMax)), rest);
  }

  /** After a save, the checkpoint paths left are exactly the last ones of
      the sorted paths that were there right after writing: the newest
      `keep_max` for a positive `keep_max`, none for a negative one, all of
      them when `keep_max` is `None` or `0`. */
  lemma RetainLast(dir: string, listing: seq<string>, step: nat, keepMax: Option<int>)
    requires NoDuplicates(listing)
    ensures var paths := CheckpointFilepaths(dir, Saved(dir, listing, step));
      var kept := CheckpointFilepaths(dir, AfterSave(dir, listing, step, keepMax));
      && (!Truthy(keepMax) ==> kept == paths)
      && (Truthy(keepMax) && keepMax.value > 0 ==>
            |kept| == if |paths| <= keepMax.value then |paths| else keepMax.value)
      && (Truthy(keepMax) && keepMax.value < 0 ==> kept == [])
  {
    var paths := CheckpointFilepaths(dir, Saved(dir, listing, step));
    RetainSuffix(dir, listing, step, keepMax);
    assert paths[0..] == paths;
  }

  /** Entries that are not checkpoint files are never removed. */
  lemma OthersSurvive(dir: string, listing: seq<string>, step: nat, keepMax: Option<int>, x: string)
    requires x in listing && !IsCheckpointFile(x)
    ensures x in AfterSave(dir, listing, step, keepMax)
  {
    var files := Saved(dir, listing, step);
    var paths := CheckpointFilepaths(dir, files);
    var doomed := Doomed(paths, keepMax);
    if JoinPath(GlobDir(dir), x) in doomed {
      assert JoinPath(GlobDir(dir), x) in multiset(Globbed(dir, files));
      var name := GlobbedEntry(dir, files, JoinPath(GlobDir(dir), x));
      JoinPathInjective(GlobDir(dir), name, x);
    }
    FilteredCount(NotIn(dir, doomed), files);
    assert multiset(files)[x] > 0;
  }

  /** `load_checkpoint` picks the last of the sorted checkpoint paths. */
  lemma LoadIsLast(dir: string, listing: seq<string>)
    requires CheckpointFilepaths(dir, listing) != []
    ensures var paths := CheckpointFilepaths(dir, listing);
      LoadCheckpoint(dir, listing) == Some(paths[|paths| - 1])
  {
  }

  /** A checkpoint saved at a step no older than any listed checkpoint is
      the one `load_checkpoint` picks next, unless a negative `keep_max`
      removed it. This needs a non-empty model directory: see
      `EmptyDirSaveUnseen`. */
  lemma SaveThenLoad(dir: string, listing: seq<string>, step: nat, keepMax: Option<int>)
    requires dir != []
    requires NoDuplicates(listing)
    requires forall x :: x in listing && IsCheckpointFile(x) ==> LexLessEq(x, CheckpointName(step))
    requires Truthy(keepMax) ==> keepMax.value >= 1
    ensures LoadCheckpoint(dir, AfterSave(dir, listing, step, keepMax)) == Some(JoinPath(GlobDir(dir), CheckpointName(step)))
  {
    NewestLast(dir, listing, CheckpointName(step));
    SavedIsLast(dir, listing, step, keepMax);
  }

  /** With an empty model directory the checkpoint is written to the
      working directory while the glob searches the root: the save only
      ever removes entries from the searched directory, so when it holds no
      checkpoint `load_checkpoint` still finds none after the save. */
  lemma EmptyDirSaveUnseen(listing: seq<string>, step: nat, keepMax: Option<int>)
    requires LoadCheckpoint("", listing).None?
    ensures LoadCheckpoint("", AfterSave("", listing, step, keepMax)).None?
  {
    var paths := CheckpointFilepaths("", listing);
    FilteredEmpty(IsCheckpointFile, listing);
    assert paths == [] by {
      assert |multiset(paths)| == |multiset(Globbed("", listing))|;
    }
    FilteredAll(NotIn("", []), listing);
    assert AfterSave("", listing, step, keepMax) == listing;
  }

  /** When the written checkpoint sorts last, at least one checkpoint is
      kept and the last kept one is it. */
  lemma SavedIsLast(dir: string, listing: seq<string>, step: nat, keepMax: Option<int>)
    requires NoDuplicates(listing)
    requires Truthy(keepMax) ==> keepMax.value >= 1
    requires var paths := CheckpointFilepaths(dir, Saved(dir, listing, step));
      paths != [] && paths[|paths| - 1] == JoinPath(GlobDir(dir), CheckpointName(step))
    ensures LoadCheckpoint(dir, AfterSave(dir, listing, step, keepMax)) == Some(JoinPath(GlobDir(dir), CheckpointName(step)))
  {
    var paths := CheckpointFilepaths(dir, Saved(dir, listing, step));
    var after := AfterSave(dir, listing, step, keepMax);
    var kept := CheckpointFilepaths(dir, after);
    assert kept != [] && kept[|kept| - 1] == paths[|paths| - 1] by {
      var n := |Doomed(paths, keepMax)|;
      RetainSuffix(dir, listing, step, keepMax);
      assert n < |paths|;
      LastOfSuffix(paths, n);
    }
    LoadIsLast(dir, after);
  }

  lemma LastOfSuffix(s: seq<string>, n: nat)
    requires n < |s|
    ensures s[n..] != [] && s[n..][|s[n..]| - 1] == s[|s| - 1]
  {
  }


  /** A checkpoint written under a name no smaller than any other
      checkpoint entry's sorts last among the checkpoint paths. */
  lemma NewestLast(dir: string, listing: seq<string>, name: string)
    requires IsCheckpointFile(name)
    requires forall x :: x in listing && IsCheckpointFile(x) ==> LexLessEq(x, name)
    ensures var paths := CheckpointFilepaths(dir, Written(listing, name));
      paths != [] && paths[|paths| - 1] == JoinPath(GlobDir(dir), name)
  {
    var files := Written(listing, name);
    forall x | x in files && IsCheckpointFile(x)
      ensures LexLessEq(x, name)
    {
      if x != name {
        assert x in listing;
      }
    }
    LastIsNewest(dir, files, name);
  }

  lemma LastIsNewest(dir: string, files: seq<string>, name: string)
    requires name in files && IsCheckpointFile(name)
    requires forall x :: x in files && IsCheckpointFile(x) ==> LexLessEq(x, name)
    ensures var paths := CheckpointFilepaths(dir, files);
      paths != [] && paths[|paths| - 1] == JoinPath(GlobDir(dir), name)
  {
    var newest := JoinPath(GlobDir(dir), name);
    GlobbedHas(dir, files, name);
    forall p | p in Globbed(dir, files)
      ensures LexLessEq(p, newest)
    {
      NewestAbove(dir, files, name, p);
    }
    MaximumLast(CheckpointFilepaths(dir, files), Globbed(dir, files), newest);
  }

  /** A sorted permutation ends with the greatest element. */
  lemma MaximumLast(sorted: seq<string>, s: seq<string>, m: string)
    requires Sorted(sorted) && multiset(sorted) == multiset(s)
    requires m in s && forall x :: x in s ==> LexLessEq(x, m)
    ensures sorted != [] && sorted[|sorted| - 1] == m
  {
    assert m in multiset(sorted);
    var last := sorted[|sorted| - 1];
    SortedLastIsMax(sorted);
    assert last in multiset(s);
    LexLessEqAntisymmetric(m, last);
  }

  lemma NewestAbove(dir: string, files: seq<string>, name: string, path: string)
    requires forall x :: x in files && IsCheckpointFile(x) ==> LexLessEq(x, name)
    requires path in Globbed(dir, files)
    ensures LexLessEq(path, JoinPath(GlobDir(dir), name))
  {
    var y := GlobbedEntry(dir, files, path);
    if y != name {
      JoinPathOrder(GlobDir(dir), y, name);
    }
  }

  // =====================================================================
  // range_step

  /** How a run of `next` calls on the generator left it. `Finished` is a
      generator that returned; `RuntimeError` is what a `raise
      StopIteration` inside a generator body turns into under PEP 479
      (the default behaviour since Python 3.7). */
  datatype Ending = Suspended | Finished | RuntimeError

  /** The values `pulls` calls of `next` produced, and how the last call
      ended. */
  datatype Pulled = Pulled(values: seq<int>, ending: Ending)

  /** `pulls` calls of `next` on `range_step` suspended at `step`: each call
      yields `step` and advances it, until `end` is truthy and `step` has
      passed it; the generator then ends as `onStop` says. */
  function Pull(step: int, end: Option<int>, pulls: nat, onStop: Ending): (r: Pulled)
    ensures |r.values| <= pulls
    ensures |r.values| == pulls ==> r.ending == Suspended
    ensures |r.values| < pulls ==> r.ending == onStop
    decreases pulls
  {
    if pulls == 0 then Pulled([], Suspended)
    else if Truthy(end) && step > end.value then Pulled([], onStop)
    else
      var rest := Pull(step + 1, end, pulls - 1, onStop);
      Pulled([step] + rest.values, rest.ending)
  }

  /** How many values `range_step(start, end)` has before it stops. */
  function Available(start: int, end: Option<int>): (n: int)
  {
    if Truthy(end) then (if end.value - start + 1 < 0 then 0 else end.value - start + 1) else -1
  }

  /** The values are the consecutive integers from `start`; there are
      `pulls` of them unless `end` is truthy, and then no more than run up
      to `end` inclusive; the generator stops exactly when more were asked
      for. A falsy `end` (`None` or `0`) never stops it. */
  lemma {:induction false} PullShape(start: int, end: Option<int>, pulls: nat, onStop: Ending)
    requires onStop != Suspended
    ensures var r := Pull(start, end, pulls, onStop);
      && (forall i :: 0 <= i < |r.values| ==> r.values[i] == start + i)
      && (Available(start, end) < 0 || pulls <= Available(start, end) ==> |r.values| == pulls && r.ending == Suspended)
      && (0 <= Available(start, end) < pulls ==> |r.values| == Available(start, end) && r.ending == onStop)
    decreases pulls
  {
    if pulls > 0 && !(Truthy(end) && start > end.value) {
      PullShape(start + 1, end, pulls - 1, onStop);
      var rest := Pull(start + 1, end, pulls - 1, onStop);
      var r := Pull(start, end, pulls, onStop);
      assert r.values == [start] + rest.values;
      forall i | 0 <= i < |r.values| ensures r.values[i] == start + i {
        if i > 0 {
          assert r.values[i] == rest.values[i - 1];
        }
      }
    }
  }

  /** The generator body: `step = start`, then `while True` with the stop
      test before each `yield`, driven by `pulls` calls of `next`. */
  method RangeStep(start: int, end: Option<int>, pulls: nat, onStop: Ending)
    returns (values: seq<int>, ending: Ending)
    ensures Pulled(values, ending) == Pull(start, end, pulls, onStop)
  {
    ghost var target := Pull(start, end, pulls, onStop);
    values, ending := [], Suspended;
    var step, remaining := start, pulls;
    while remaining > 0
      invariant target.values == values + Pull(step, end, remaining, onStop).values
      invariant target.ending == Pull(step, end, remaining, onStop).ending
    {
      if Truthy(end) && step > end.value {
        PullStops(step, end, remaining, onStop);
        ending := onStop;
        return;
      }
      PullYields(step, end, remaining, onStop, values);
      values := values + [step];
      step, remaining := step + 1, remaining - 1;
    }
  }

  lemma PullStops(step: int, end: Option<int>, pulls: nat, onStop: Ending)
    requires pulls > 0 && Truthy(end) && step > end.value
    ensures Pull(step, end, pulls, onStop) == Pulled([], onStop)
  {
  }

  lemma PullYields(step: int, end: Option<int>, pulls: nat, onStop: Ending, before: seq<int>)
    requires pulls > 0 && !(Truthy(end) && step > end.value)
    ensures before + Pull(step, end, pulls, onStop).values
         == (before + [step]) + Pull(step + 1, end, pulls - 1, onStop).values
    ensures Pull(step, end, pulls, onStop).ending == Pull(step + 1, end, pulls - 1, onStop).ending
  {
    var rest := Pull(step + 1, end, pulls - 1, onStop);
    assert before + ([step] + rest.values) == (before + [step]) + rest.values;
  }

  /** As written, the `raise StopIteration` reaches the caller as a
      `RuntimeError` as soon as more values are pulled than the range
      holds: `zip(range_step(1, 3), xs)` with four or more elements in `xs`
      fails on the fourth pull instead of ending after three pairs. */
  lemma RangeStepAsWritten()
    ensures Pull(1, Some(3), 4, RuntimeError) == Pulled([1, 2, 3], RuntimeError)
  {
    assert Pull(4, Some(3), 1, RuntimeError) == Pulled([], RuntimeError);
    assert Pull(3, Some(3), 2, RuntimeError) == Pulled([3], RuntimeError);
    assert Pull(2, Some(3), 3, RuntimeError) == Pulled([2, 3], RuntimeError);
  }

  /** With a `return` in place of the `raise`, the generator yields
      `start..end` inclusive and then simply finishes: it never raises, and
      a `zip` over it ends cleanly after `end - start + 1` pairs. */
  lemma RangeStepCorrected(start: int, end: int, pulls: nat)
    requires end != 0 && start <= end && pulls > end - start + 1
    ensures var r := Pull(start, Some(end), pulls, Finished);
      && r.ending == Finished
      && |r.values| == end - start + 1
      && r.values[0] == start && r.values[|r.values| - 1] == end
  {
    PullShape(start, Some(end), pulls, Finished);
  }

  // =====================================================================
  // log_level_value

  const Warn: int := 30
  const Info: int := 20
  const Debug: int := 10

  datatype LevelResult = Level(value: int) | ValueError(message: string)

  /** `log_level_value`: the `logging` constant for `"WARN"`, `"INFO"` or
      `"DEBUG"` (exact, case-sensitive), a `ValueError` naming the string
      for anything else. */
  function LogLevelValue(name: string): (r: LevelResult)
    ensures r.Level? <==> name == "WARN" || name == "INFO" || name == "DEBUG"
    ensures r.Level? ==> r.value in {Warn, Info, Debug}
    ensures r.ValueError? ==> r.message == "Unknown log level: " + name
  {
    if name == "WARN" then Level(Warn)
    else if name == "INFO" then Level(Info)
    else if name == "DEBUG" then Level(Debug)
    else ValueError("Unknown log level: " + name)
  }

  /** The accepted name of a level value. */
  function LevelName(value: int): (r: Option<string>)
  {
    if value == Warn then Some("WARN")
    else if value == Info then Some("INFO")
    else if value == Debug then Some("DEBUG")
    else None
  }

  /** `LevelName` and `LogLevelValue` are inverse on the three levels, in
      both directions, so distinct accepted names give distinct levels. */
  lemma LevelRoundTrip(name: string, value: int)
    ensures LogLevelValue(name) == Level(value) <==> LevelName(value) == Some(name)
  {
  }
}
