/**
 * `load_tim_files` and `group_by_clut_coords` (ui_actions.py): which directory entries are
 * loaded, under which name, when loading fails, and how the loaded images are partitioned
 * into the groups that must share one palette.
 *
 * A Python dict keeps insertion order; it is modelled as a sequence of (key, value) items
 * with distinct keys.
 */
module Loader {
  import opened Results
  import opened Bytes
  import opened TimCodec

  /**
   * A directory entry as `Path` splits it, with what `read_tim` returns for that file
   * (`Parse` of its bytes); it is only consulted for entries that are not skipped.
   */
  datatype FileEntry = FileEntry(stem: string, suffix: string, read: Result<TimInfo, ParseError>)

  /** One item of `tim_objects`: the file stem and the parsed file. */
  datatype Named = Named(name: string, tim: TimInfo)

  datatype LoadError =
    | BadTim(cause: ParseError)  // read_tim raised
    | DuplicateName(name: string)  // RuntimeError("Duplikat nazwy TIM: ...")
    | NoTimFiles  // RuntimeError("Source folder does not contain .tim files")

  function LowerChar(c: char): char {
    if 'A' <= c <= 'Z' then (c as int + 32) as char else c
  }

  /** `str.lower()` on ASCII letters. */
  function Lower(s: string): (r: string)
    ensures |r| == |s|
  {
    seq(|s|, i requires 0 <= i < |s| => LowerChar(s[i]))
  }

  /** `file.suffix.lower() == ".tim"`. */
  predicate IsTimFile(e: FileEntry) {
    Lower(e.suffix) == ".tim"
  }

  /** The suffix test ignores case: `.tim`, `.TIM`, `.Tim` and every other mix are kept, nothing else. */
  lemma TimSuffixCases(e: FileEntry)
    ensures IsTimFile(e) <==>
      && |e.suffix| == 4 && e.suffix[0] == '.'
      && (e.suffix[1] == 't' || e.suffix[1] == 'T')
      && (e.suffix[2] == 'i' || e.suffix[2] == 'I')
      && (e.suffix[3] == 'm' || e.suffix[3] == 'M')
  {
    if |e.suffix| == 4 {
      assert Lower(e.suffix) ==
        [LowerChar(e.suffix[0]), LowerChar(e.suffix[1]), LowerChar(e.suffix[2]), LowerChar(e.suffix[3])];
    }
  }

  /** The entries the loop does not skip, in directory order. */
  function TimEntries(es: seq<FileEntry>): (ts: seq<FileEntry>)
    ensures forall i | 0 <= i < |ts| :: IsTimFile(ts[i])
    ensures |ts| <= |es|
  {
    if es == [] then []
    else
      var rest := TimEntries(es[..|es| - 1]);
      if IsTimFile(es[|es| - 1]) then rest + [es[|es| - 1]] else rest
  }

  lemma {:induction false} TimEntriesAppend(a: seq<FileEntry>, b: seq<FileEntry>)
    ensures TimEntries(a + b) == TimEntries(a) + TimEntries(b)
    decreases |b|
  {
    if b != [] {
      var b' := b[..|b| - 1];
      assert (a + b)[..|a + b| - 1] == a + b';
      TimEntriesAppend(a, b');
    } else {
      assert a + b == a;
    }
  }

  /** Item i of the .tim entries loads: its bytes parse and no earlier entry had its stem. */
  predicate LoadsAt(ts: seq<FileEntry>, i: nat)
    requires i < |ts|
  {
    ts[i].read.Ok? && forall j | 0 <= j < i :: ts[j].stem != ts[i].stem
  }

  predicate LoadsUpTo(ts: seq<FileEntry>, n: nat)
    requires n <= |ts|
  {
    forall i | 0 <= i < n :: LoadsAt(ts, i)
  }

  /** Item i is the first of the .tim entries that does not load. */
  predicate FailsFirstAt(ts: seq<FileEntry>, i: nat) {
    i < |ts| && LoadsUpTo(ts, i) && !LoadsAt(ts, i)
  }

  function Names(objs: seq<Named>): seq<string> {
    seq(|objs|, i requires 0 <= i < |objs| => objs[i].name)
  }

  predicate Distinct<T(==)>(s: seq<T>) {
    forall i, j | 0 <= i < j < |s| :: s[i] != s[j]
  }

  /**
   * `load_tim_files` over the entries of the folder, in `iterdir` order: the .tim entries
   * (suffix compared case-insensitively) keyed by stem; the first entry that fails to parse, or
   * whose stem is already loaded, stops the loop; no .tim entry at all is an error too.
   */
  method LoadTimFiles(entries: seq<FileEntry>) returns (r: Result<seq<Named>, LoadError>)
    ensures var ts := TimEntries(entries);
      && (r.Ok? <==> |ts| > 0 && LoadsUpTo(ts, |ts|))
      && (r == Err(NoTimFiles) <==> |ts| == 0)
      && (r.Ok? ==>
            && |r.value| == |ts| && Distinct(Names(r.value))
            && Names(r.value) == Stems(ts)
            && forall i | 0 <= i < |ts| :: ts[i].read == Ok(r.value[i].tim))
      && (r.Err? && r.error.BadTim? ==>
            exists i: nat :: FailsFirstAt(ts, i) && ts[i].read == Err(r.error.cause))
      && (r.Err? && r.error.DuplicateName? ==>
            exists i: nat :: FailsFirstAt(ts, i) && ts[i].read.Ok? && ts[i].stem == r.error.name)
  {
    var timObjects: seq<Named> := [];
    ghost var ts: seq<FileEntry> := [];
    var k := 0;
    while k < |entries|
      invariant 0 <= k <= |entries|
      invariant ts == TimEntries(entries[..k])
      invariant |timObjects| == |ts| && LoadsUpTo(ts, |ts|)
      invariant Names(timObjects) == Stems(ts)
      invariant forall i | 0 <= i < |ts| :: ts[i].read == Ok(timObjects[i].tim)
    {
      var file := entries[k];
      TimEntriesStep(entries, k);
      if !IsTimFile(file) {
        k := k + 1;
        continue;
      }
      var parsed := file.read;
      ghost var all := TimEntries(entries);
      if parsed.Err? {
        StepFails(all, ts, file);
        assert FailsFirstAt(all, |ts|) && all[|ts|].read == Err(parsed.error);
        return Err(BadTim(parsed.error));
      }
      var key := file.stem;
      if key in Names(timObjects) {
        StepFails(all, ts, file);
        assert FailsFirstAt(all, |ts|) && all[|ts|].read.Ok? && all[|ts|].stem == key;
        return Err(DuplicateName(key));
      }
      StepLoads(ts, file);
      ghost var names, stems := Names(timObjects), Stems(ts);
      timObjects := timObjects + [Named(key, parsed.value)];
      ts := ts + [file];
      assert Names(timObjects) == names + [key] && Stems(ts) == stems + [key];
      k := k + 1;
    }
    assert entries[..k] == entries;
    if |timObjects| == 0 {
      return Err(NoTimFiles);
    }
    LoadedDistinct(ts);
    r := Ok(timObjects);
  }

  function Stems(ts: seq<FileEntry>): seq<string> {
    seq(|ts|, i requires 0 <= i < |ts| => ts[i].stem)
  }

  /** How one more directory entry extends the .tim entries, and where they sit in the whole list. */
  lemma TimEntriesStep(entries: seq<FileEntry>, k: nat)
    requires k < |entries|
    ensures TimEntries(entries[..k + 1]) ==
      TimEntries(entries[..k]) + (if IsTimFile(entries[k]) then [entries[k]] else [])
    ensures IsTimFile(entries[k]) ==>
      var n := |TimEntries(entries[..k])|;
      n < |TimEntries(entries)| && TimEntries(entries)[..n + 1] == TimEntries(entries[..k]) + [entries[k]]
  {
    var file := entries[k];
    assert entries[..k + 1] == entries[..k] + [file];
    TimEntriesAppend(entries[..k], [file]);
    assert TimEntries([file]) == if IsTimFile(file) then [file] else [] by {
      assert [file][..0] == [];
    }
    assert entries == entries[..k + 1] + entries[k + 1..];
    TimEntriesAppend(entries[..k + 1], entries[k + 1..]);
  }

  /** The next .tim entry does not load: loading stops there, and it is the first that fails. */
  lemma StepFails(all: seq<FileEntry>, ts: seq<FileEntry>, file: FileEntry)
    requires |ts| < |all| && all[..|ts| + 1] == ts + [file]
    requires LoadsUpTo(ts, |ts|)
    requires file.read.Err? || file.stem in Stems(ts)
    ensures all[|ts|] == file
    ensures FailsFirstAt(all, |ts|) && !LoadsUpTo(all, |all|)
  {
    assert all[|ts|] == file;
    forall i | 0 <= i < |ts| ensures LoadsAt(all, i) {
      assert LoadsAt(ts, i);
      forall j | 0 <= j <= i ensures all[j] == ts[j] {
        assert all[j] == all[..|ts| + 1][j];
      }
    }
    if file.stem in Stems(ts) {
      var j :| 0 <= j < |ts| && Stems(ts)[j] == file.stem;
      assert all[j] == all[..|ts| + 1][j] == ts[j];
    }
  }

  /** The next .tim entry loads. */
  lemma StepLoads(ts: seq<FileEntry>, file: FileEntry)
    requires LoadsUpTo(ts, |ts|)
    requires file.read.Ok? && file.stem !in Stems(ts)
    ensures LoadsUpTo(ts + [file], |ts| + 1)
  {
    var ts' := ts + [file];
    forall i | 0 <= i < |ts'| ensures LoadsAt(ts', i) {
      if i < |ts| {
        assert LoadsAt(ts, i);
      } else {
        assert forall j | 0 <= j < i :: ts'[j].stem == Stems(ts)[j];
      }
    }
  }

  /** Entries that all load have distinct stems. */
  lemma LoadedDistinct(ts: seq<FileEntry>)
    requires LoadsUpTo(ts, |ts|)
    ensures Distinct(Stems(ts))
  {
    forall i, j | 0 <= i < j < |ts| ensures Stems(ts)[i] != Stems(ts)[j] {
      assert LoadsAt(ts, j);
    }
  }

  /** A group key: `(format_flag, clut_coord_x, clut_coord_y)`. */
  datatype ClutKey = ClutKey(format: Format, x: nat, y: nat)

  function KeyOf(t: TimInfo): ClutKey {
    ClutKey(t.format, t.clutCoordX, t.clutCoordY)
  }

  /** Two images share a group exactly when format and CLUT position agree; nothing else counts. */
  lemma SameGroupKey(t1: TimInfo, t2: TimInfo)
    ensures KeyOf(t1) == KeyOf(t2) <==>
      t1.format == t2.format && t1.clutCoordX == t2.clutCoordX && t1.clutCoordY == t2.clutCoordY
  {
  }

  /** The dict `group_by_clut_coords` returns: its keys in insertion order and its items. */
  datatype Groups = Groups(order: seq<ClutKey>, members: map<ClutKey, seq<string>>)

  /** The names deposited under key k, i.e. those of the images with that key, in input order. */
  function NamesWithKey(objs: seq<Named>, k: ClutKey): seq<string> {
    if objs == [] then []
    else
      var rest := NamesWithKey(objs[..|objs| - 1], k);
      var last := objs[|objs| - 1];
      if KeyOf(last.tim) == k then rest + [last.name] else rest
  }

  /** The keys in the order they are first met. */
  function KeysInOrder(objs: seq<Named>): seq<ClutKey> {
    if objs == [] then []
    else
      var rest := KeysInOrder(objs[..|objs| - 1]);
      var k := KeyOf(objs[|objs| - 1].tim);
      if k in rest then rest else rest + [k]
  }

  /**
   * `group_by_clut_coords`: `groups.setdefault(key, []).append(name)` for every item in order.
   * Every key appears once, in first-seen order, and holds the names of exactly the images
   * with that key, in input order.
   */
  method GroupByClutCoords(objs: seq<Named>) returns (g: Groups)
    ensures g.order == KeysInOrder(objs)
    ensures forall k :: k in g.members <==> k in g.order
    ensures forall k | k in g.members :: g.members[k] == NamesWithKey(objs, k)
  {
    var order: seq<ClutKey> := [];
    var groups: map<ClutKey, seq<string>> := map[];
    var i := 0;
    while i < |objs|
      invariant 0 <= i <= |objs|
      invariant order == KeysInOrder(objs[..i])
      invariant forall k :: k in groups <==> k in order
      invariant forall k | k in groups :: groups[k] == NamesWithKey(objs[..i], k)
      invariant forall k | k !in groups :: NamesWithKey(objs[..i], k) == []
    {
      var item := objs[i];
      var key := KeyOf(item.tim);
      assert objs[..i + 1][..i] == objs[..i];
      if key in groups {
        groups := groups[key := groups[key] + [item.name]];
      } else {
        groups := groups[key := [item.name]];
        order := order + [key];
      }
      i := i + 1;
    }
    assert objs[..i] == objs;
    g := Groups(order, groups);
  }

  /** The group keys are distinct and are exactly the keys of the images. */
  lemma {:induction false} KeysInOrderSpec(objs: seq<Named>)
    ensures Distinct(KeysInOrder(objs))
    ensures forall k :: k in KeysInOrder(objs) <==> exists i | 0 <= i < |objs| :: KeyOf(objs[i].tim) == k
  {
    if objs != [] {
      var front := objs[..|objs| - 1];
      KeysInOrderSpec(front);
      forall k ensures k in KeysInOrder(objs) <==> exists i | 0 <= i < |objs| :: KeyOf(objs[i].tim) == k {
        if k in KeysInOrder(front) {
          var i :| 0 <= i < |front| && KeyOf(front[i].tim) == k;
          assert KeyOf(objs[i].tim) == k;
        }
        if exists i | 0 <= i < |objs| :: KeyOf(objs[i].tim) == k {
          var i :| 0 <= i < |objs| && KeyOf(objs[i].tim) == k;
          if i < |front| {
            assert KeyOf(front[i].tim) == k;
          }
        }
      }
    }
  }

  /** A name is in the group of key k exactly when some image with that name has key k. */
  lemma {:induction false} GroupMembership(objs: seq<Named>, k: ClutKey, n: string)
    ensures n in NamesWithKey(objs, k) <==>
      exists i | 0 <= i < |objs| :: objs[i].name == n && KeyOf(objs[i].tim) == k
  {
    if objs != [] {
      var front := objs[..|objs| - 1];
      GroupMembership(front, k, n);
      if n in NamesWithKey(front, k) {
        var i :| 0 <= i < |front| && front[i].name == n && KeyOf(front[i].tim) == k;
        assert objs[i] == front[i];
      }
      if exists i | 0 <= i < |objs| :: objs[i].name == n && KeyOf(objs[i].tim) == k {
        var i :| 0 <= i < |objs| && objs[i].name == n && KeyOf(objs[i].tim) == k;
        if i < |front| {
          assert front[i] == objs[i];
        }
      }
    }
  }

  /** With distinct names (as `load_tim_files` guarantees) every image lands in exactly one group: its own key's. */
  lemma ExactlyOneGroup(objs: seq<Named>, i: nat, k: ClutKey)
    requires Distinct(Names(objs)) && i < |objs|
    ensures objs[i].name in NamesWithKey(objs, k) <==> k == KeyOf(objs[i].tim)
  {
    GroupMembership(objs, k, objs[i].name);
    if objs[i].name in NamesWithKey(objs, k) {
      var j :| 0 <= j < |objs| && objs[j].name == objs[i].name && KeyOf(objs[j].tim) == k;
      assert Names(objs)[i] == objs[i].name && Names(objs)[j] == objs[j].name;
      assert j == i;
    }
  }

  /** `a` is `b` with some elements left out, the rest in the same order. */
  predicate IsSubsequence<T(==)>(a: seq<T>, b: seq<T>)
    decreases |b|
  {
    if a == [] then true
    else if b == [] then false
    else if a[|a| - 1] == b[|b| - 1] then IsSubsequence(a[..|a| - 1], b[..|b| - 1])
    else IsSubsequence(a, b[..|b| - 1])
  }

  /** A group lists its names in the order the images were given. */
  lemma {:induction false} GroupKeepsOrder(objs: seq<Named>, k: ClutKey)
    ensures IsSubsequence(NamesWithKey(objs, k), Names(objs))
  {
    if objs != [] {
      var front := objs[..|objs| - 1];
      GroupKeepsOrder(front, k);
      assert Names(objs)[..|objs| - 1] == Names(front);
      if KeyOf(objs[|objs| - 1].tim) != k {
        SkipLast(NamesWithKey(front, k), Names(objs));
      }
    }
  }

  /** A subsequence of a sequence's front is a subsequence of the sequence. */
  lemma {:induction false} SkipLast<T>(a: seq<T>, b: seq<T>)
    requires b != [] && IsSubsequence(a, b[..|b| - 1])
    ensures IsSubsequence(a, b)
    decreases |b|
  {
    if a != [] && a[|a| - 1] == b[|b| - 1] {
      var b' := b[..|b| - 1];
      // a matches inside b', so its front matches inside b' too
      SubsequenceFront(a, b');
      SkipLast(a[..|a| - 1], b');
    }
  }

  /** Dropping the last element of a subsequence keeps it a subsequence of the front of the sequence. */
  lemma {:induction false} SubsequenceFront<T>(a: seq<T>, b: seq<T>)
    requires a != [] && IsSubsequence(a, b)
    ensures b != [] && IsSubsequence(a[..|a| - 1], b[..|b| - 1])
    decreases |b|
  {
    var b' := b[..|b| - 1];
    if a[|a| - 1] != b[|b| - 1] {
      SubsequenceFront(a, b');
      SkipLast(a[..|a| - 1], b');
    }
  }
}
