/** The composer.json merge engine of the monorepo builder: it folds the
    decoded composer.json of every package, in order, into the root
    composer.json.

    Only the sections listed in mergeSections are merged. Before a package's
    `autoload` or `autoload-dev` section is merged, the paths under its
    path-bearing keys are re-anchored to the package's directory. An array
    section is combined with what was merged so far and sorted; a scalar
    section overwrites it; `repositories` is de-duplicated and re-indexed.
    Finally a package required in `require` is dropped from `require-dev`.

    The two collaborators the merger delegates to, the parameters merger's
    mergeWithCombine and the array sorter's recursiveSort, are functions the
    model takes as given: every property below holds whatever they compute. */
module Package {
  import opened PhpValues
  import opened PhpStrings

  const NAME := "name"
  const REQUIRE := "require"
  const REQUIRE_DEV := "require-dev"
  const REPOSITORIES := "repositories"
  const AUTOLOAD := "autoload"
  const AUTOLOAD_DEV := "autoload-dev"

  /** The autoload keys whose values are paths relative to the package. */
  const SECTIONS_WITH_PATH: seq<string> := ["classmap", "files", "exclude-from-classmap", "psr-4", "psr-0"]

  /** A package's composer.json as loaded, with the directory of that file
      relative to the working directory. */
  datatype PackageFile = PackageFile(composerJson: seq<Entry>, relativeDirectory: string)

  predicate IsAutoloadSection(section: string)
  {
    section == AUTOLOAD || section == AUTOLOAD_DEV
  }

  predicate IsPathKey(k: Key)
  {
    k.StrKey? && k.s in SECTIONS_WITH_PATH
  }

  // ---------------------------------------------------------------------
  // Re-anchoring paths (relativizePath)
  // ---------------------------------------------------------------------

  /** `$dir . '/' . ltrim($path, '/')`. */
  function AnchoredPath(dir: string, path: string): string
  {
    dir + "/" + TrimLeftChar(path, '/')
  }

  /** after is path re-anchored under dir: dir, one slash, then path with its
      leading slashes dropped. */
  predicate IsAnchored(dir: string, path: string, after: string)
  {
    && |after| > |dir|
    && after[..|dir| + 1] == dir + "/"
    && var rest := after[|dir| + 1..];
       && |rest| <= |path|
       && rest == path[|path| - |rest|..]
       && (forall i :: 0 <= i < |path| - |rest| ==> path[i] == '/')
       && (rest == [] || rest[0] != '/')
  }

  /** A value relativizePath accepts: a path, or an array of paths. */
  predicate IsPathValue(v: Value)
  {
    v.Str? || (v.Arr? && forall j :: 0 <= j < |v.entries| ==> v.entries[j].val.Str?)
  }

  /** An array relativizePath accepts: its parameter is an array, and with
      strict types every path handed to ltrim must be a string. */
  predicate IsPathMap(classmap: seq<Entry>)
  {
    UniqueKeys(classmap) && forall i :: 0 <= i < |classmap| ==> IsPathValue(classmap[i].val)
  }

  /** after is before with every path re-anchored under dir, keys and order kept. */
  predicate Reanchored(before: Value, after: Value, dir: string)
  {
    || (before.Str? && after.Str? && IsAnchored(dir, before.s, after.s))
    || (before.Arr? && after.Arr? && |after.entries| == |before.entries| &&
        forall j :: 0 <= j < |before.entries| ==>
          && after.entries[j].key == before.entries[j].key
          && before.entries[j].val.Str? && after.entries[j].val.Str?
          && IsAnchored(dir, before.entries[j].val.s, after.entries[j].val.s))
  }

  lemma AnchoredPathIsAnchored(dir: string, path: string)
    ensures IsAnchored(dir, path, AnchoredPath(dir, path))
  {
    var after := AnchoredPath(dir, path);
    assert after[..|dir| + 1] == dir + "/";
    assert after[|dir| + 1..] == TrimLeftChar(path, '/');
  }

  /** What relativizePath makes of one value: a path is re-anchored, an array
      of paths is re-anchored element by element (array_map keeps the keys). */
  function RelativizedValue(v: Value, dir: string): (r: Value)
    requires IsPathValue(v)
    ensures Reanchored(v, r, dir) && IsPathValue(r)
  {
    if v.Arr? then
      var es := v.entries;
      var r := Arr(seq(|es|, j requires 0 <= j < |es| => Entry(es[j].key, Str(AnchoredPath(dir, es[j].val.s)))));
      assert forall j :: 0 <= j < |es| ==> IsAnchored(dir, es[j].val.s, r.entries[j].val.s) by {
        forall j | 0 <= j < |es| {
          AnchoredPathIsAnchored(dir, es[j].val.s);
        }
      }
      r
    else
      AnchoredPathIsAnchored(dir, v.s);
      Str(AnchoredPath(dir, v.s))
  }

  /** What relativizePath returns: every entry keeps its key and place, and its
      value is re-anchored. */
  function Relativized(classmap: seq<Entry>, dir: string): (r: seq<Entry>)
    requires IsPathMap(classmap)
    ensures |r| == |classmap|
    ensures forall i :: 0 <= i < |r| ==> r[i].key == classmap[i].key && Reanchored(classmap[i].val, r[i].val, dir)
    ensures IsPathMap(r)
  {
    seq(|classmap|, i requires 0 <= i < |classmap| => Entry(classmap[i].key, RelativizedValue(classmap[i].val, dir)))
  }

  /** What relativizePath makes of the value of a path-bearing key: an array
      of paths comes back re-anchored. Any other value, which the callers'
      preconditions rule out, is left as it is. */
  function RelativizedPaths(v: Value, dir: string): (r: Value)
    ensures v.Arr? && IsPathMap(v.entries) ==> r == Arr(Relativized(v.entries, dir))
  {
    if v.Arr? && IsPathMap(v.entries) then Arr(Relativized(v.entries, dir)) else v
  }

  // ---------------------------------------------------------------------
  // Preparing autoload paths (prepareAutoloadPaths)
  // ---------------------------------------------------------------------

  /** `$inner[$key]`, when set, is an array relativizePath accepts. */
  predicate PathKeyTyped(inner: seq<Entry>, key: string)
  {
    IsSet(inner, StrKey(key)) ==>
      Get(inner, StrKey(key)).value.Arr? && IsPathMap(Get(inner, StrKey(key)).value.entries)
  }

  /** What prepareAutoloadPaths demands of `$json[$section]`: when the section is
      an autoload array, each of its path-bearing keys holds such an array. */
  predicate PathsTyped(json: seq<Entry>, section: string)
  {
    IsAutoloadSection(section) && Get(json, StrKey(section)).Some? && Get(json, StrKey(section)).value.Arr?
    ==> forall i :: 0 <= i < |SECTIONS_WITH_PATH| ==> PathKeyTyped(Get(json, StrKey(section)).value.entries, SECTIONS_WITH_PATH[i])
  }

  /** The autoload section after one pass of prepareAutoloadPaths' loop, for
      the path key SECTIONS_WITH_PATH[t]: that key, when set, is re-anchored. */
  function RelativizedInner(inner: seq<Entry>, dir: string, t: nat): (r: seq<Entry>)
    requires t < |SECTIONS_WITH_PATH| && PathKeyTyped(inner, SECTIONS_WITH_PATH[t])
    ensures forall k :: Get(r, k) ==
                if k == StrKey(SECTIONS_WITH_PATH[t]) && IsSet(inner, k)
                then Some(RelativizedPaths(Get(inner, k).value, dir))
                else Get(inner, k)
  {
    var key := StrKey(SECTIONS_WITH_PATH[t]);
    if IsSet(inner, key) then
      SetLaws(inner, key, Arr(Relativized(Get(inner, key).value.entries, dir)));
      Set(inner, key, Arr(Relativized(Get(inner, key).value.entries, dir)))
    else inner
  }

  /** A pass keeps every path key of the section an array of paths. */
  lemma RelativizedInnerTyped(inner: seq<Entry>, dir: string, t: nat)
    requires t < |SECTIONS_WITH_PATH|
    requires forall i :: 0 <= i < |SECTIONS_WITH_PATH| ==> PathKeyTyped(inner, SECTIONS_WITH_PATH[i])
    ensures forall i :: 0 <= i < |SECTIONS_WITH_PATH| ==> PathKeyTyped(RelativizedInner(inner, dir, t), SECTIONS_WITH_PATH[i])
  {
    var inner' := RelativizedInner(inner, dir, t);
    forall i | 0 <= i < |SECTIONS_WITH_PATH|
      ensures PathKeyTyped(inner', SECTIONS_WITH_PATH[i])
    {
      assert PathKeyTyped(inner, SECTIONS_WITH_PATH[i]);
    }
  }

  /** One pass of prepareAutoloadPaths' loop, for the path key SECTIONS_WITH_PATH[t]. */
  function RelativizedAt(section: string, json: seq<Entry>, dir: string, t: nat): (r: seq<Entry>)
    requires IsAutoloadSection(section) && PathsTyped(json, section) && t < |SECTIONS_WITH_PATH|
    ensures PathsTyped(r, section)
    ensures forall k :: k != StrKey(section) ==> Get(r, k) == Get(json, k)
    ensures forall k :: IsSet(r, k) == IsSet(json, k)
    ensures Get(json, StrKey(section)).Some? && Get(json, StrKey(section)).value.Arr? ==>
      Get(r, StrKey(section)) == Some(Arr(RelativizedInner(Get(json, StrKey(section)).value.entries, dir, t)))
    ensures !(Get(json, StrKey(section)).Some? && Get(json, StrKey(section)).value.Arr?) ==> r == json
  {
    var key := StrKey(SECTIONS_WITH_PATH[t]);
    match Get(json, StrKey(section))
    case Some(Arr(inner)) =>
      if IsSet(inner, key) then
        var inner' := RelativizedInner(inner, dir, t);
        SetLaws(json, StrKey(section), Arr(inner'));
        RelativizedInnerTyped(inner, dir, t);
        Set(json, StrKey(section), Arr(inner'))
      else
        assert RelativizedInner(inner, dir, t) == inner;
        json
    case _ => json
  }

  /** The passes of prepareAutoloadPaths' loop from the t-th path key on. */
  function PreparedFrom(section: string, json: seq<Entry>, dir: string, t: nat): (r: seq<Entry>)
    requires IsAutoloadSection(section) && PathsTyped(json, section) && t <= |SECTIONS_WITH_PATH|
    ensures PathsTyped(r, section)
    ensures forall k :: k != StrKey(section) ==> Get(r, k) == Get(json, k)
    ensures forall k :: IsSet(r, k) == IsSet(json, k)
    decreases |SECTIONS_WITH_PATH| - t
  {
    if t == |SECTIONS_WITH_PATH| then json
    else PreparedFrom(section, RelativizedAt(section, json, dir, t), dir, t + 1)
  }

  /** What prepareAutoloadPaths returns. */
  function PreparedAutoloadPaths(section: string, json: seq<Entry>, dir: string): (r: seq<Entry>)
    requires PathsTyped(json, section)
    ensures forall s :: PathsTyped(json, s) ==> PathsTyped(r, s)
    ensures forall k :: k != StrKey(section) ==> Get(r, k) == Get(json, k)
    ensures forall k :: IsSet(r, k) == IsSet(json, k)
  {
    if IsAutoloadSection(section) then PreparedFrom(section, json, dir, 0) else json
  }

  lemma SectionsWithPathDistinct(t: nat)
    requires t < |SECTIONS_WITH_PATH|
    ensures SECTIONS_WITH_PATH[t] !in SECTIONS_WITH_PATH[t + 1..]
    ensures SECTIONS_WITH_PATH[t..] == [SECTIONS_WITH_PATH[t]] + SECTIONS_WITH_PATH[t + 1..]
  {
  }

  /** The passes from the t-th path key on re-anchor exactly the path keys from
      the t-th on that are set, and leave every other key of the section alone. */
  lemma {:induction false} PreparedFromEffect(section: string, json: seq<Entry>, dir: string, t: nat, inner: seq<Entry>)
    requires IsAutoloadSection(section) && PathsTyped(json, section) && t <= |SECTIONS_WITH_PATH|
    requires Get(json, StrKey(section)) == Some(Arr(inner))
    ensures var r := PreparedFrom(section, json, dir, t);
      && Get(r, StrKey(section)).Some? && Get(r, StrKey(section)).value.Arr?
      && forall k :: Get(Get(r, StrKey(section)).value.entries, k) ==
           if k.StrKey? && k.s in SECTIONS_WITH_PATH[t..] && IsSet(inner, k)
           then Some(RelativizedPaths(Get(inner, k).value, dir))
           else Get(inner, k)
    decreases |SECTIONS_WITH_PATH| - t
  {
    if t < |SECTIONS_WITH_PATH| {
      assert PathKeyTyped(inner, SECTIONS_WITH_PATH[t]);
      var json1 := RelativizedAt(section, json, dir, t);
      var inner1 := RelativizedInner(inner, dir, t);
      PreparedFromEffect(section, json1, dir, t + 1, inner1);
      SectionsWithPathDistinct(t);
      var final := Get(PreparedFrom(section, json, dir, t), StrKey(section)).value.entries;
      forall k
        ensures Get(final, k) ==
          if k.StrKey? && k.s in SECTIONS_WITH_PATH[t..] && IsSet(inner, k)
          then Some(RelativizedPaths(Get(inner, k).value, dir))
          else Get(inner, k)
      {
        if k == StrKey(SECTIONS_WITH_PATH[t]) {
          assert Get(final, k) == Get(inner1, k);
        } else {
          assert Get(inner1, k) == Get(inner, k);
        }
      }
    }
  }

  /** When the section is not an array, prepareAutoloadPaths changes nothing. */
  lemma {:induction false} PreparedFromNonArray(section: string, json: seq<Entry>, dir: string, t: nat)
    requires IsAutoloadSection(section) && PathsTyped(json, section) && t <= |SECTIONS_WITH_PATH|
    requires !(Get(json, StrKey(section)).Some? && Get(json, StrKey(section)).value.Arr?)
    ensures PreparedFrom(section, json, dir, t) == json
    decreases |SECTIONS_WITH_PATH| - t
  {
    if t < |SECTIONS_WITH_PATH| {
      PreparedFromNonArray(section, json, dir, t + 1);
    }
  }

  /** r is json with only `autoload` or `autoload-dev` changed, and within it
      only the set path-bearing keys, each re-anchored; a section that is not
      an array is left alone. */
  ghost predicate OnlyPathsReanchored(section: string, json: seq<Entry>, r: seq<Entry>, dir: string)
  {
    && (!IsAutoloadSection(section) ==> r == json)
    && (!(Get(json, StrKey(section)).Some? && Get(json, StrKey(section)).value.Arr?) ==> r == json)
    && (forall k :: k != StrKey(section) ==> Get(r, k) == Get(json, k))
    && (Get(json, StrKey(section)).Some? && Get(json, StrKey(section)).value.Arr? && IsAutoloadSection(section) ==>
          var inner := Get(json, StrKey(section)).value.entries;
          && Get(r, StrKey(section)).Some? && Get(r, StrKey(section)).value.Arr?
          && forall k :: Get(Get(r, StrKey(section)).value.entries, k) ==
               if IsPathKey(k) && IsSet(inner, k)
               then Some(RelativizedPaths(Get(inner, k).value, dir))
               else Get(inner, k))
  }

  /** prepareAutoloadPaths changes only `autoload` and `autoload-dev`, and
      within them only the set path-bearing keys, each of which it re-anchors. */
  lemma PrepareTouchesOnlyPaths(section: string, json: seq<Entry>, dir: string)
    requires PathsTyped(json, section)
    ensures OnlyPathsReanchored(section, json, PreparedAutoloadPaths(section, json, dir), dir)
  {
    if IsAutoloadSection(section) && Get(json, StrKey(section)).Some? && Get(json, StrKey(section)).value.Arr? {
      PreparedSectionEffect(section, json, dir, Get(json, StrKey(section)).value.entries);
    } else if IsAutoloadSection(section) {
      PreparedFromNonArray(section, json, dir, 0);
    }
  }

  /** All passes together re-anchor exactly the set path keys of the section. */
  lemma PreparedSectionEffect(section: string, json: seq<Entry>, dir: string, inner: seq<Entry>)
    requires IsAutoloadSection(section) && PathsTyped(json, section)
    requires Get(json, StrKey(section)) == Some(Arr(inner))
    ensures var r := PreparedFrom(section, json, dir, 0);
      && Get(r, StrKey(section)).Some? && Get(r, StrKey(section)).value.Arr?
      && forall k :: Get(Get(r, StrKey(section)).value.entries, k) ==
           if IsPathKey(k) && IsSet(inner, k)
           then Some(RelativizedPaths(Get(inner, k).value, dir))
           else Get(inner, k)
  {
    PreparedFromEffect(section, json, dir, 0, inner);
    assert SECTIONS_WITH_PATH[0..] == SECTIONS_WITH_PATH;
  }

  // ---------------------------------------------------------------------
  // Merging one section (mergeSection)
  // ---------------------------------------------------------------------

  /** `$json[$section]`, which PHP reads as null when the key is missing. */
  function Incoming(json: seq<Entry>, section: string): Value
  {
    match Get(json, StrKey(section))
    case Some(v) => v
    case None => Null
  }

  /** `$merged[$section] ?? []`. */
  function Coalesce(merged: seq<Entry>, section: string): Value
  {
    if IsSet(merged, StrKey(section)) then Get(merged, StrKey(section)).value else Arr([])
  }

  /** `??` gives the stored value when it is there and not null, and the
      empty array when the key is missing or holds null; never null. */
  lemma CoalesceCases(merged: seq<Entry>, section: string)
    ensures !Coalesce(merged, section).Null?
    ensures forall v :: Get(merged, StrKey(section)) == Some(v) && !v.Null? ==> Coalesce(merged, section) == v
    ensures Get(merged, StrKey(section)) in {None, Some(Null)} ==> Coalesce(merged, section) == Arr([])
  {
  }

  /** `array_values(array_unique($a, SORT_REGULAR))`. */
  function Deduplicated(a: seq<Entry>): seq<Entry>
  {
    ArrayValues(ArrayUnique(a))
  }

  /** The `repositories` clean-up leaves no two equal entries, keys 0 .. n-1,
      every distinct entry of the input, each at its first occurrence and in
      the order of first occurrence. */
  lemma DeduplicatedRepositories(a: seq<Entry>)
    ensures var r := Deduplicated(a);
      && (forall i :: 0 <= i < |r| ==> r[i].key == IntKey(i))
      && DistinctValues(r)
      && ValueSet(r) == ValueSet(a)
      && (forall i, j :: 0 <= i < j < |r| ==> IndexOfValue(a, r[i].val) < IndexOfValue(a, r[j].val))
  {
    var u := ArrayUnique(a);
    var r := Deduplicated(a);
    ArrayUniqueDistinct(a);
    ArrayUniqueValueSet(a);
    ArrayUniqueOrder(a);
    assert forall i :: 0 <= i < |r| ==> r[i].val == u[i].val;
    assert ValueSet(r) == ValueSet(u) by {
      forall v | v in ValueSet(u) ensures v in ValueSet(r) {
        var i :| 0 <= i < |u| && u[i].val == v;
        assert r[i].val == v;
      }
    }
  }

  /** The section value mergeSection stores for an array coming in. */
  function CombinedSection(
    merged: seq<Entry>, section: string, incoming: seq<Entry>,
    mergeWithCombine: (Value, seq<Entry>) -> seq<Entry>, recursiveSort: seq<Entry> -> seq<Entry>): seq<Entry>
  {
    var sorted := recursiveSort(mergeWithCombine(Coalesce(merged, section), incoming));
    if section == REPOSITORIES then Deduplicated(sorted) else sorted
  }

  /** What mergeSection returns: the section is combined (array) or overwritten
      (anything else); no other section changes. */
  function MergedSection(
    json: seq<Entry>, section: string, merged: seq<Entry>,
    mergeWithCombine: (Value, seq<Entry>) -> seq<Entry>, recursiveSort: seq<Entry> -> seq<Entry>): (r: seq<Entry>)
    ensures forall k :: k != StrKey(section) ==> Get(r, k) == Get(merged, k)
    ensures Incoming(json, section).Arr? ==>
      Get(r, StrKey(section)) == Some(Arr(CombinedSection(merged, section, Incoming(json, section).entries, mergeWithCombine, recursiveSort)))
    ensures !Incoming(json, section).Arr? ==> Get(r, StrKey(section)) == Some(Incoming(json, section))
    ensures KeySet(r) == KeySet(merged) + {StrKey(section)}
    ensures UniqueKeys(merged) ==> UniqueKeys(r)
  {
    var incoming := Incoming(json, section);
    var v := if incoming.Arr? then Arr(CombinedSection(merged, section, incoming.entries, mergeWithCombine, recursiveSort)) else incoming;
    SetLaws(merged, StrKey(section), v);
    Set(merged, StrKey(section), v)
  }

  // ---------------------------------------------------------------------
  // Dropping require-dev duplicates (filterOutDuplicatesRequireAndRequireDev)
  // ---------------------------------------------------------------------

  /** The entries of a whose keys are not in ks, in order. */
  function WithoutKeys(a: seq<Entry>, ks: set<Key>): (r: seq<Entry>)
    ensures forall i :: 0 <= i < |r| ==> r[i].key !in ks
  {
    if a == [] then []
    else WithoutKeys(a[..|a| - 1], ks) + (if a[|a| - 1].key in ks then [] else [a[|a| - 1]])
  }

  lemma GetAppend(a: seq<Entry>, e: Entry, k: Key)
    ensures Get(a + [e], k) == if k in KeySet(a) then Get(a, k) else if e.key == k then Some(e.val) else None
  {
    var b := a + [e];
    KeySetFind(a, k);
    match Find(a, k)
    case Some(i) =>
      assert b[i] == a[i];
      assert forall j :: 0 <= j < i ==> b[j] == a[j];
      FindAt(b, k, i);
    case None =>
      assert forall j :: 0 <= j < |a| ==> b[j] == a[j];
      if e.key == k {
        FindAt(b, k, |a|);
      } else {
        assert Find(b, k) == None;
      }
  }

  /** Dropping the keys ks leaves exactly the other keys, with their values. */
  lemma {:induction false} WithoutKeysGet(a: seq<Entry>, ks: set<Key>, k: Key)
    ensures Get(WithoutKeys(a, ks), k) == if k in ks then None else Get(a, k)
    ensures k in KeySet(WithoutKeys(a, ks)) <==> k in KeySet(a) && k !in ks
  {
    var r := WithoutKeys(a, ks);
    if a == [] {
    } else {
      var p, x := a[..|a| - 1], a[|a| - 1];
      assert a == p + [x];
      WithoutKeysGet(p, ks, k);
      var rp := WithoutKeys(p, ks);
      GetAppend(p, x, k);
      KeySetFind(r, k);
      KeySetFind(rp, k);
      KeySetFind(p, k);
      KeySetFind(a, k);
      if x.key in ks {
        assert r == rp;
        GetAppend(p, x, k);
      } else {
        assert r == rp + [x];
        GetAppend(rp, x, k);
        KeySetFind(rp + [x], k);
        KeySetFind(p + [x], k);
      }
    }
  }

  /** What filterOutDuplicatesRequireAndRequireDev demands: array_keys is only
      applied to arrays. */
  predicate RequireSectionsAreArrays(json: seq<Entry>)
  {
    IsSet(json, StrKey(REQUIRE)) && IsSet(json, StrKey(REQUIRE_DEV)) ==>
      Get(json, StrKey(REQUIRE)).value.Arr? && Get(json, StrKey(REQUIRE_DEV)).value.Arr?
  }

  /** What filterOutDuplicatesRequireAndRequireDev returns. */
  function FilteredDuplicates(json: seq<Entry>): seq<Entry>
    requires RequireSectionsAreArrays(json)
  {
    if !IsSet(json, StrKey(REQUIRE)) || !IsSet(json, StrKey(REQUIRE_DEV)) then json
    else
      var require := Get(json, StrKey(REQUIRE)).value.entries;
      var dev := WithoutKeys(Get(json, StrKey(REQUIRE_DEV)).value.entries, KeySet(require));
      if |dev| == 0 then Unset(json, StrKey(REQUIRE_DEV)) else Set(json, StrKey(REQUIRE_DEV), Arr(dev))
  }

  /** The duplicate filter adds no key and keeps keys unique. */
  lemma FilteredDuplicatesKeys(json: seq<Entry>)
    requires UniqueKeys(json) && RequireSectionsAreArrays(json)
    ensures UniqueKeys(FilteredDuplicates(json)) && KeySet(FilteredDuplicates(json)) <= KeySet(json)
  {
    if IsSet(json, StrKey(REQUIRE)) && IsSet(json, StrKey(REQUIRE_DEV)) {
      var require := Get(json, StrKey(REQUIRE)).value.entries;
      var kept := WithoutKeys(Get(json, StrKey(REQUIRE_DEV)).value.entries, KeySet(require));
      if |kept| == 0 {
        UnsetLaws(json, StrKey(REQUIRE_DEV));
      } else {
        SetLaws(json, StrKey(REQUIRE_DEV), Arr(kept));
        KeySetFind(json, StrKey(REQUIRE_DEV));
      }
    }
  }

  /** r is json with every package `require` has dropped from `require-dev`:
      with either section missing r is json; otherwise `require` and every
      other section are unchanged, `require-dev` keeps exactly the keys
      `require` lacks, with their values, and is gone when none is left. */
  ghost predicate DuplicatesDropped(json: seq<Entry>, r: seq<Entry>)
  {
    && (!IsSet(json, StrKey(REQUIRE)) || !IsSet(json, StrKey(REQUIRE_DEV)) ==> r == json)
    && (IsSet(json, StrKey(REQUIRE)) && IsSet(json, StrKey(REQUIRE_DEV)) ==>
          Get(json, StrKey(REQUIRE)).value.Arr? && Get(json, StrKey(REQUIRE_DEV)).value.Arr? &&
          var require := Get(json, StrKey(REQUIRE)).value.entries;
          var dev := Get(json, StrKey(REQUIRE_DEV)).value.entries;
          && (forall k :: k != StrKey(REQUIRE_DEV) ==> Get(r, k) == Get(json, k))
          && (KeySet(dev) <= KeySet(require) ==> Get(r, StrKey(REQUIRE_DEV)) == None)
          && (!(KeySet(dev) <= KeySet(require)) ==>
                && Get(r, StrKey(REQUIRE_DEV)).Some? && Get(r, StrKey(REQUIRE_DEV)).value.Arr?
                && forall k :: Get(Get(r, StrKey(REQUIRE_DEV)).value.entries, k) ==
                     if k in KeySet(require) then None else Get(dev, k)))
  }

  /** The duplicate filter keeps `require`, keeps in `require-dev` exactly the
      packages `require` lacks, drops `require-dev` once it is empty, and
      touches nothing else; with either section missing it changes nothing. */
  lemma FilteredDuplicatesEffect(json: seq<Entry>)
    requires UniqueKeys(json) && RequireSectionsAreArrays(json)
    ensures DuplicatesDropped(json, FilteredDuplicates(json))
  {
    if IsSet(json, StrKey(REQUIRE)) && IsSet(json, StrKey(REQUIRE_DEV)) {
      var require := Get(json, StrKey(REQUIRE)).value.entries;
      var dev := Get(json, StrKey(REQUIRE_DEV)).value.entries;
      var kept := WithoutKeys(dev, KeySet(require));
      forall k ensures Get(kept, k) == (if k in KeySet(require) then None else Get(dev, k))
        && (k in KeySet(kept) <==> k in KeySet(dev) && k !in KeySet(require)) {
        WithoutKeysGet(dev, KeySet(require), k);
      }
      assert |kept| == 0 <==> KeySet(dev) <= KeySet(require) by {
        if |kept| != 0 {
          assert kept[0].key in KeySet(kept);
        }
      }
      if |kept| == 0 {
        UnsetLaws(json, StrKey(REQUIRE_DEV));
      } else {
        SetLaws(json, StrKey(REQUIRE_DEV), Arr(kept));
      }
    }
  }

  // ---------------------------------------------------------------------
  // The whole merge (mergeFileInfos)
  // ---------------------------------------------------------------------

  function SectionKeys(sections: seq<string>): set<Key>
  {
    set i | 0 <= i < |sections| :: StrKey(sections[i])
  }

  /** The manifest sets k and k is one of the sections. */
  predicate SetsSection(json: seq<Entry>, sections: seq<string>, k: Key)
  {
    k in SectionKeys(sections) && IsSet(json, k)
  }

  /** No manifest of files sets the section key k. */
  predicate NoManifestSets(files: seq<PackageFile>, sections: seq<string>, k: Key)
  {
    forall f :: 0 <= f < |files| ==> !SetsSection(files[f].composerJson, sections, k)
  }

  predicate AllPathsTyped(json: seq<Entry>, sections: seq<string>)
  {
    forall i :: 0 <= i < |sections| ==> PathsTyped(json, sections[i])
  }

  predicate FilesPathsTyped(files: seq<PackageFile>, sections: seq<string>)
  {
    forall f :: 0 <= f < |files| ==> AllPathsTyped(files[f].composerJson, sections)
  }

  /** The inner loop of mergeFileInfos over the sections, for one manifest. */
  function MergedSections(
    json: seq<Entry>, dir: string, sections: seq<string>, merged: seq<Entry>,
    mergeWithCombine: (Value, seq<Entry>) -> seq<Entry>, recursiveSort: seq<Entry> -> seq<Entry>): (r: seq<Entry>)
    requires AllPathsTyped(json, sections)
    ensures UniqueKeys(merged) ==> UniqueKeys(r)
    decreases |sections|
  {
    if sections == [] then merged
    else if !IsSet(json, StrKey(sections[0])) then
      MergedSections(json, dir, sections[1..], merged, mergeWithCombine, recursiveSort)
    else
      var prepared := PreparedAutoloadPaths(sections[0], json, dir);
      MergedSections(prepared, dir, sections[1..],
        MergedSection(prepared, sections[0], merged, mergeWithCombine, recursiveSort),
        mergeWithCombine, recursiveSort)
  }

  /** One pass of the inner loop of mergeFileInfos: the first section is
      skipped when the manifest does not set it, and merged after preparing
      its paths otherwise. */
  lemma MergedSectionsStep(
    json: seq<Entry>, dir: string, sections: seq<string>, merged: seq<Entry>,
    mergeWithCombine: (Value, seq<Entry>) -> seq<Entry>, recursiveSort: seq<Entry> -> seq<Entry>)
    requires sections != [] && AllPathsTyped(json, sections)
    ensures AllPathsTyped(json, sections[1..])
    ensures AllPathsTyped(PreparedAutoloadPaths(sections[0], json, dir), sections[1..])
    ensures !IsSet(json, StrKey(sections[0])) ==>
      MergedSections(json, dir, sections, merged, mergeWithCombine, recursiveSort)
      == MergedSections(json, dir, sections[1..], merged, mergeWithCombine, recursiveSort)
    ensures IsSet(json, StrKey(sections[0])) ==>
      var prepared := PreparedAutoloadPaths(sections[0], json, dir);
      MergedSections(json, dir, sections, merged, mergeWithCombine, recursiveSort)
      == MergedSections(prepared, dir, sections[1..],
           MergedSection(prepared, sections[0], merged, mergeWithCombine, recursiveSort), mergeWithCombine, recursiveSort)
  {
    var prepared := PreparedAutoloadPaths(sections[0], json, dir);
    forall i | 0 <= i < |sections| - 1
      ensures PathsTyped(json, sections[1..][i]) && PathsTyped(prepared, sections[1..][i])
    {
      assert sections[1..][i] == sections[i + 1];
    }
  }

  /** The outer loop of mergeFileInfos over the manifests. */
  function MergedFiles(
    files: seq<PackageFile>, sections: seq<string>, merged: seq<Entry>,
    mergeWithCombine: (Value, seq<Entry>) -> seq<Entry>, recursiveSort: seq<Entry> -> seq<Entry>): (r: seq<Entry>)
    requires FilesPathsTyped(files, sections)
    ensures UniqueKeys(merged) ==> UniqueKeys(r)
    decreases |files|
  {
    if files == [] then merged
    else
      MergedFiles(files[1..], sections,
        MergedSections(files[0].composerJson, files[0].relativeDirectory, sections, merged, mergeWithCombine, recursiveSort),
        mergeWithCombine, recursiveSort)
  }

  /** What mergeFileInfos returns. */
  function MergedComposerJson(
    files: seq<PackageFile>, sections: seq<string>,
    mergeWithCombine: (Value, seq<Entry>) -> seq<Entry>, recursiveSort: seq<Entry> -> seq<Entry>): seq<Entry>
    requires FilesPathsTyped(files, sections)
    requires RequireSectionsAreArrays(MergedFiles(files, sections, [], mergeWithCombine, recursiveSort))
  {
    FilteredDuplicates(MergedFiles(files, sections, [], mergeWithCombine, recursiveSort))
  }

  /** The names mergeFileInfos hands to the package collector. */
  function PackageNames(files: seq<PackageFile>): seq<Value>
  {
    if files == [] then []
    else
      (if IsSet(files[0].composerJson, StrKey(NAME)) then [Get(files[0].composerJson, StrKey(NAME)).value] else [])
      + PackageNames(files[1..])
  }

  /** Names are collected file by file in input order: each manifest that sets
      `name` adds exactly that name, any other adds nothing. */
  lemma {:induction false} PackageNamesAppend(files: seq<PackageFile>, more: seq<PackageFile>)
    ensures PackageNames(files + more) == PackageNames(files) + PackageNames(more)
  {
    if files != [] {
      assert (files + more)[1..] == files[1..] + more;
      PackageNamesAppend(files[1..], more);
    } else {
      assert files + more == more;
    }
  }

  /** The names collected after manifest f: those collected before it, then
      its own name when it sets one. */
  lemma PackageNamesSnoc(files: seq<PackageFile>, f: nat)
    requires f < |files|
    ensures PackageNames(files[..f + 1]) == PackageNames(files[..f]) +
      if IsSet(files[f].composerJson, StrKey(NAME)) then [Get(files[f].composerJson, StrKey(NAME)).value] else []
  {
    PackageNamesAppend(files[..f], [files[f]]);
    assert files[..f + 1] == files[..f] + [files[f]];
    assert [files[f]][1..] == [];
  }

  /** One pass of the outer loop of mergeFileInfos merges manifest f. */
  lemma MergedFilesStep(
    files: seq<PackageFile>, f: nat, sections: seq<string>, merged: seq<Entry>,
    mergeWithCombine: (Value, seq<Entry>) -> seq<Entry>, recursiveSort: seq<Entry> -> seq<Entry>)
    requires f < |files| && FilesPathsTyped(files, sections)
    ensures FilesPathsTyped(files[f..], sections) && FilesPathsTyped(files[f + 1..], sections)
    ensures AllPathsTyped(files[f].composerJson, sections)
    ensures MergedFiles(files[f..], sections, merged, mergeWithCombine, recursiveSort)
      == MergedFiles(files[f + 1..], sections,
           MergedSections(files[f].composerJson, files[f].relativeDirectory, sections, merged, mergeWithCombine, recursiveSort),
           mergeWithCombine, recursiveSort)
  {
    assert files[f..][1..] == files[f + 1..];
    assert forall g :: 0 <= g < |files| - f ==> files[f..][g] == files[f + g];
  }

  /** A manifest adds to the merge only sections it sets that are among the
      merge sections: every other key of the accumulator keeps its value, and
      no key outside the merge sections appears. */
  lemma {:induction false} MergedSectionsFrame(
    json: seq<Entry>, dir: string, sections: seq<string>, merged: seq<Entry>,
    mergeWithCombine: (Value, seq<Entry>) -> seq<Entry>, recursiveSort: seq<Entry> -> seq<Entry>)
    requires AllPathsTyped(json, sections)
    ensures var r := MergedSections(json, dir, sections, merged, mergeWithCombine, recursiveSort);
      && KeySet(r) <= KeySet(merged) + SectionKeys(sections)
      && forall k :: !SetsSection(json, sections, k) ==> Get(r, k) == Get(merged, k)
    decreases |sections|
  {
    if sections != [] {
      var rest := sections[1..];
      assert SectionKeys(sections) == {StrKey(sections[0])} + SectionKeys(rest) by {
        forall k | k in SectionKeys(sections) ensures k in {StrKey(sections[0])} + SectionKeys(rest) {
          var i :| 0 <= i < |sections| && k == StrKey(sections[i]);
          if i > 0 { assert rest[i - 1] == sections[i]; }
        }
        forall k | k in SectionKeys(rest) ensures k in SectionKeys(sections) {
          var i :| 0 <= i < |rest| && k == StrKey(rest[i]);
          assert sections[i + 1] == rest[i];
        }
      }
      if !IsSet(json, StrKey(sections[0])) {
        MergedSectionsFrame(json, dir, rest, merged, mergeWithCombine, recursiveSort);
      } else {
        var prepared := PreparedAutoloadPaths(sections[0], json, dir);
        var merged1 := MergedSection(prepared, sections[0], merged, mergeWithCombine, recursiveSort);
        MergedSectionsFrame(prepared, dir, rest, merged1, mergeWithCombine, recursiveSort);
      }
    }
  }

  /** Every top-level key of the merged composer.json is one of the merge
      sections, and a section no manifest sets is absent from it. */
  lemma {:induction false} MergedFilesFrame(
    files: seq<PackageFile>, sections: seq<string>, merged: seq<Entry>,
    mergeWithCombine: (Value, seq<Entry>) -> seq<Entry>, recursiveSort: seq<Entry> -> seq<Entry>)
    requires FilesPathsTyped(files, sections)
    ensures var r := MergedFiles(files, sections, merged, mergeWithCombine, recursiveSort);
      && KeySet(r) <= KeySet(merged) + SectionKeys(sections)
      && forall k :: NoManifestSets(files, sections, k) ==> Get(r, k) == Get(merged, k)
    decreases |files|
  {
    if files != [] {
      MergedSectionsFrame(files[0].composerJson, files[0].relativeDirectory, sections, merged, mergeWithCombine, recursiveSort);
      var merged1 := MergedSections(files[0].composerJson, files[0].relativeDirectory, sections, merged, mergeWithCombine, recursiveSort);
      MergedFilesFrame(files[1..], sections, merged1, mergeWithCombine, recursiveSort);
      forall k | NoManifestSets(files, sections, k)
        ensures Get(MergedFiles(files, sections, merged, mergeWithCombine, recursiveSort), k) == Get(merged, k)
      {
        assert !SetsSection(files[0].composerJson, sections, k);
        assert NoManifestSets(files[1..], sections, k) by {
          forall f | 0 <= f < |files| - 1 ensures !SetsSection(files[1..][f].composerJson, sections, k) {
            assert files[1..][f] == files[f + 1];
          }
        }
      }
    }
  }

  /** The merged composer.json has only merge sections as top-level keys, each
      once, and a section that no manifest sets is not among them. */
  lemma MergedComposerJsonKeys(
    files: seq<PackageFile>, sections: seq<string>,
    mergeWithCombine: (Value, seq<Entry>) -> seq<Entry>, recursiveSort: seq<Entry> -> seq<Entry>)
    requires FilesPathsTyped(files, sections)
    requires RequireSectionsAreArrays(MergedFiles(files, sections, [], mergeWithCombine, recursiveSort))
    ensures var r := MergedComposerJson(files, sections, mergeWithCombine, recursiveSort);
      && UniqueKeys(r)
      && KeySet(r) <= SectionKeys(sections)
      && forall k :: NoManifestSets(files, sections, k) ==> k !in KeySet(r)
  {
    var m := MergedFiles(files, sections, [], mergeWithCombine, recursiveSort);
    var r := FilteredDuplicates(m);
    MergedFilesFrame(files, sections, [], mergeWithCombine, recursiveSort);
    FilteredDuplicatesKeys(m);
    forall k | NoManifestSets(files, sections, k) ensures k !in KeySet(r) {
      assert Get(m, k) == None;
      KeySetFind(m, k);
    }
  }

  // ---------------------------------------------------------------------
  // The objects
  // ---------------------------------------------------------------------

  /** The collector of the names of the merged packages. */
  class MergedPackagesCollector {
    var packages: seq<Value>

    constructor ()
      ensures packages == []
    {
      packages := [];
    }

    method AddPackage(package: Value)
      modifies this
      ensures packages == old(packages) + [package]
    {
      packages := packages + [package];
    }
  }

  class PackageComposerJsonMerger {
    /** ParametersMerger::mergeWithCombine: the section merged so far (or [])
        and the incoming array, combined into an array. */
    const mergeWithCombine: (Value, seq<Entry>) -> seq<Entry>
    /** ArraySorter::recursiveSort. */
    const recursiveSort: seq<Entry> -> seq<Entry>
    const mergedPackagesCollector: MergedPackagesCollector
    const mergeSections: seq<string>

    constructor (
      mergeWithCombine: (Value, seq<Entry>) -> seq<Entry>,
      mergedPackagesCollector: MergedPackagesCollector,
      recursiveSort: seq<Entry> -> seq<Entry>,
      mergeSections: seq<string>)
      ensures this.mergeWithCombine == mergeWithCombine && this.recursiveSort == recursiveSort
      ensures this.mergedPackagesCollector == mergedPackagesCollector && this.mergeSections == mergeSections
    {
      this.mergeWithCombine := mergeWithCombine;
      this.mergedPackagesCollector := mergedPackagesCollector;
      this.mergeSections := mergeSections;
      this.recursiveSort := recursiveSort;
    }

    /** Merges the manifests in order into one, collecting their names. */
    method MergeFileInfos(files: seq<PackageFile>) returns (merged: seq<Entry>)
      requires FilesPathsTyped(files, mergeSections)
      requires RequireSectionsAreArrays(MergedFiles(files, mergeSections, [], mergeWithCombine, recursiveSort))
      modifies mergedPackagesCollector
      ensures merged == MergedComposerJson(files, mergeSections, mergeWithCombine, recursiveSort)
      ensures mergedPackagesCollector.packages == old(mergedPackagesCollector.packages) + PackageNames(files)
    {
      merged := [];
      for f := 0 to |files|
        invariant MergedFiles(files[f..], mergeSections, merged, mergeWithCombine, recursiveSort)
                  == MergedFiles(files, mergeSections, [], mergeWithCombine, recursiveSort)
        invariant UniqueKeys(merged)
        invariant mergedPackagesCollector.packages == old(mergedPackagesCollector.packages) + PackageNames(files[..f])
      {
        var packageFile := files[f];
        var packageComposerJson := packageFile.composerJson;
        PackageNamesSnoc(files, f);
        MergedFilesStep(files, f, mergeSections, merged, mergeWithCombine, recursiveSort);
        if IsSet(packageComposerJson, StrKey(NAME)) {
          mergedPackagesCollector.AddPackage(Get(packageComposerJson, StrKey(NAME)).value);
        }

        ghost var before := merged;
        ghost var names := mergedPackagesCollector.packages;
        for s := 0 to |mergeSections|
          invariant mergedPackagesCollector.packages == names
          invariant AllPathsTyped(packageComposerJson, mergeSections[s..])
          invariant MergedSections(packageComposerJson, packageFile.relativeDirectory, mergeSections[s..], merged, mergeWithCombine, recursiveSort)
                    == MergedSections(packageFile.composerJson, packageFile.relativeDirectory, mergeSections, before, mergeWithCombine, recursiveSort)
        {
          var mergeSection := mergeSections[s];
          assert mergeSections[s..][1..] == mergeSections[s + 1..];
          MergedSectionsStep(packageComposerJson, packageFile.relativeDirectory, mergeSections[s..], merged, mergeWithCombine, recursiveSort);
          if !IsSet(packageComposerJson, StrKey(mergeSection)) {
            continue;
          }
          packageComposerJson := PrepareAutoloadPaths(mergeSection, packageComposerJson, packageFile.relativeDirectory);
          merged := MergeSection(packageComposerJson, mergeSection, merged);
        }
      }
      assert files[..|files|] == files;
      merged := FilterOutDuplicatesRequireAndRequireDev(merged);
    }

    /** Re-anchors the path-bearing keys of an `autoload` or `autoload-dev`
        section to the package directory; any other section is returned as it is. */
    method PrepareAutoloadPaths(mergeSection: string, packageComposerJson: seq<Entry>, packageRelativeDirectory: string)
      returns (r: seq<Entry>)
      requires PathsTyped(packageComposerJson, mergeSection)
      ensures r == PreparedAutoloadPaths(mergeSection, packageComposerJson, packageRelativeDirectory)
      ensures OnlyPathsReanchored(mergeSection, packageComposerJson, r, packageRelativeDirectory)
    {
      PrepareTouchesOnlyPaths(mergeSection, packageComposerJson, packageRelativeDirectory);
      if !IsAutoloadSection(mergeSection) {
        return packageComposerJson;
      }
      r := packageComposerJson;
      for t := 0 to |SECTIONS_WITH_PATH|
        invariant PathsTyped(r, mergeSection)
        invariant PreparedFrom(mergeSection, r, packageRelativeDirectory, t)
                  == PreparedFrom(mergeSection, packageComposerJson, packageRelativeDirectory, 0)
      {
        var sectionWithPath := StrKey(SECTIONS_WITH_PATH[t]);
        var section := Get(r, StrKey(mergeSection));
        if section.Some? && section.value.Arr? && IsSet(section.value.entries, sectionWithPath) {
          var classmap := RelativizePath(Get(section.value.entries, sectionWithPath).value.entries, packageRelativeDirectory);
          r := Set(r, StrKey(mergeSection), Arr(Set(section.value.entries, sectionWithPath, Arr(classmap))));
        }
      }
    }

    /** Merges one section of a manifest into the accumulator. */
    method MergeSection(packageComposerJson: seq<Entry>, section: string, merged: seq<Entry>) returns (r: seq<Entry>)
      ensures r == MergedSection(packageComposerJson, section, merged, mergeWithCombine, recursiveSort)
      ensures forall k :: k != StrKey(section) ==> Get(r, k) == Get(merged, k)
      ensures Incoming(packageComposerJson, section).Arr? && section != REPOSITORIES ==>
        Get(r, StrKey(section)) == Some(Arr(recursiveSort(mergeWithCombine(Coalesce(merged, section), Incoming(packageComposerJson, section).entries))))
      ensures Incoming(packageComposerJson, section).Arr? && section == REPOSITORIES ==>
        Get(r, StrKey(section)) == Some(Arr(Deduplicated(recursiveSort(mergeWithCombine(Coalesce(merged, section), Incoming(packageComposerJson, section).entries)))))
      ensures !Incoming(packageComposerJson, section).Arr? ==> Get(r, StrKey(section)) == Some(Incoming(packageComposerJson, section))
    {
      var key := StrKey(section);
      var incoming := Incoming(packageComposerJson, section);
      if incoming.Arr? {
        r := Set(merged, key, Arr(mergeWithCombine(Coalesce(merged, section), incoming.entries)));
        SetLaws(merged, key, Arr(mergeWithCombine(Coalesce(merged, section), incoming.entries)));
        var sorted := recursiveSort(Get(r, key).value.entries);
        SetSet(merged, key, Get(r, key).value, Arr(sorted));
        r := Set(r, key, Arr(sorted));
        if section == REPOSITORIES {
          SetSet(merged, key, Arr(sorted), Arr(ArrayUnique(sorted)));
          r := Set(r, key, Arr(ArrayUnique(sorted)));
          SetSet(merged, key, Arr(ArrayUnique(sorted)), Arr(ArrayValues(ArrayUnique(sorted))));
          r := Set(r, key, Arr(ArrayValues(ArrayUnique(sorted))));
        }
        return;
      }
      r := Set(merged, key, incoming);
    }

    /** Drops from `require-dev` every package `require` already has, and
        `require-dev` itself once it is empty. */
    method FilterOutDuplicatesRequireAndRequireDev(composerJson: seq<Entry>) returns (r: seq<Entry>)
      requires UniqueKeys(composerJson) && RequireSectionsAreArrays(composerJson)
      ensures r == FilteredDuplicates(composerJson)
      ensures DuplicatesDropped(composerJson, r)
    {
      if !IsSet(composerJson, StrKey(REQUIRE)) || !IsSet(composerJson, StrKey(REQUIRE_DEV)) {
        FilteredDuplicatesEffect(composerJson);
        return composerJson;
      }
      var require := Get(composerJson, StrKey(REQUIRE)).value.entries;
      var requireDev := Get(composerJson, StrKey(REQUIRE_DEV)).value.entries;
      var duplicatedPackages := ArrayIntersect(Keys(require), Keys(requireDev));
      var packages := Keys(requireDev);
      DuplicatedPackages(require, requireDev);
      var dev := requireDev;
      for i := 0 to |packages|
        invariant dev == WithoutKeys(requireDev[..i], KeySet(require)) + requireDev[i..]
      {
        FilterStep(requireDev, KeySet(require), i);
        if packages[i] in duplicatedPackages {
          dev := Unset(dev, packages[i]);
        }
      }
      assert requireDev[..|packages|] == requireDev && requireDev[|packages|..] == [];
      assert dev == WithoutKeys(requireDev, KeySet(require));
      r := composerJson;
      if |dev| == 0 {
        r := Unset(r, StrKey(REQUIRE_DEV));
      } else {
        r := Set(r, StrKey(REQUIRE_DEV), Arr(dev));
      }
      assert r == FilteredDuplicates(composerJson);
      FilteredDuplicatesEffect(composerJson);
    }

    /** Re-anchors every path of an autoload entry to the package directory. */
    method RelativizePath(classmap: seq<Entry>, packageRelativeDirectory: string) returns (r: seq<Entry>)
      requires IsPathMap(classmap)
      ensures r == Relativized(classmap, packageRelativeDirectory)
      ensures |r| == |classmap|
      ensures forall i :: 0 <= i < |r| ==>
        r[i].key == classmap[i].key && Reanchored(classmap[i].val, r[i].val, packageRelativeDirectory)
    {
      ghost var target := Relativized(classmap, packageRelativeDirectory);
      r := classmap;
      for i := 0 to |classmap|
        invariant |r| == |classmap|
        invariant forall j :: 0 <= j < |r| ==> r[j].key == classmap[j].key
        invariant forall j :: 0 <= j < i ==> r[j] == target[j]
        invariant forall j :: i <= j < |r| ==> r[j] == classmap[j]
      {
        var key, value := classmap[i].key, classmap[i].val;
        var path: Value;
        if value.Arr? {
          path := RelativizedValue(value, packageRelativeDirectory);
        } else {
          path := Str(AnchoredPath(packageRelativeDirectory, value.s));
        }
        SetAtUnique(classmap, r, i, path);
        r := Set(r, key, path);
      }
    }
  }

  /** In an array with the same keys as a PHP array c, assigning c's i-th key
      overwrites the i-th entry. */
  lemma SetAtUnique(c: seq<Entry>, r: seq<Entry>, i: nat, v: Value)
    requires UniqueKeys(c) && i < |c|
    requires |r| == |c| && forall j :: 0 <= j < |r| ==> r[j].key == c[j].key
    ensures Set(r, c[i].key, v) == r[i := Entry(c[i].key, v)]
  {
    FindUnique(c, i);
    FindSameKeys(c, r, c[i].key);
  }

  /** `array_intersect($a, $b)` on two key lists: the keys of a also in b. */
  function ArrayIntersect(a: seq<Key>, b: seq<Key>): (r: seq<Key>)
    ensures forall k :: k in r <==> k in a && k in b
  {
    if a == [] then []
    else (if a[0] in b then [a[0]] else []) + ArrayIntersect(a[1..], b)
  }

  /** An entry of require-dev is among the duplicated packages exactly when
      require has its key. */
  lemma DuplicatedPackages(require: seq<Entry>, requireDev: seq<Entry>)
    ensures forall i :: 0 <= i < |requireDev| ==>
      (Keys(requireDev)[i] in ArrayIntersect(Keys(require), Keys(requireDev)) <==> requireDev[i].key in KeySet(require))
  {
    var packages := Keys(requireDev);
    forall i | 0 <= i < |requireDev|
      ensures packages[i] in ArrayIntersect(Keys(require), packages) <==> requireDev[i].key in KeySet(require)
    {
      assert packages[i] in packages;
    }
  }

  /** One pass of the filter loop: the next entry is unset exactly when its
      key is in ks. */
  lemma FilterStep(dev: seq<Entry>, ks: set<Key>, i: nat)
    requires i < |dev|
    ensures dev[i].key in ks ==>
      Unset(WithoutKeys(dev[..i], ks) + dev[i..], dev[i].key) == WithoutKeys(dev[..i + 1], ks) + dev[i + 1..]
    ensures dev[i].key !in ks ==>
      WithoutKeys(dev[..i], ks) + dev[i..] == WithoutKeys(dev[..i + 1], ks) + dev[i + 1..]
  {
    assert dev[..i + 1][..i] == dev[..i];
    assert dev[i..] == [dev[i]] + dev[i + 1..];
    if dev[i].key in ks {
      UnsetAfterFiltered(dev[..i], ks, dev[i], dev[i + 1..]);
      assert WithoutKeys(dev[..i], ks) + dev[i..] == WithoutKeys(dev[..i], ks) + [dev[i]] + dev[i + 1..];
    }
  }

  /** Unsetting the next key in ks while filtering removes exactly that entry. */
  lemma UnsetAfterFiltered(p: seq<Entry>, ks: set<Key>, x: Entry, rest: seq<Entry>)
    requires x.key in ks
    ensures Unset(WithoutKeys(p, ks) + [x] + rest, x.key) == WithoutKeys(p, ks) + rest
  {
    var w := WithoutKeys(p, ks);
    var a := w + [x] + rest;
    assert a[|w|] == x;
    assert forall j :: 0 <= j < |w| ==> a[j] == w[j];
    FindAt(a, x.key, |w|);
    assert a[..|w|] == w && a[|w| + 1..] == rest;
  }
}
