/**
 * src/memory.rs: the per-directory recency store. A map from a directory key
 * to the env files last used there, most recent first. Canonicalising a path
 * is a filesystem call and is passed in as a partial function; reading and
 * writing the TOML snapshot are not part of this model.
 */
module RecencyStore {
  import opened Wrappers

  /** The `entries` map: directory key to file list. */
  type Store = map<string, seq<string>>

  /** `Path::canonicalize` followed by `to_string_lossy`; None when it fails. */
  type Canon = string -> Option<string>

  /** No path occurs twice. */
  predicate NoDup(s: seq<string>)
  {
    forall i, j :: 0 <= i < j < |s| ==> s[i] != s[j]
  }

  /** `Vec::retain(|f| f != x)`: every copy of `x` removed, the rest in order. */
  function Without(s: seq<string>, x: string): seq<string>
  {
    if s == [] then []
    else (if s[0] == x then [] else [s[0]]) + Without(s[1..], x)
  }

  /** The paths of `s` that are not among `files`, in their order. */
  function Unlisted(s: seq<string>, files: seq<string>): seq<string>
  {
    if s == [] then []
    else (if s[0] in files then [] else [s[0]]) + Unlisted(s[1..], files)
  }

  /** `files` with repeats collapsed to their first occurrence. */
  function Dedup(files: seq<string>): seq<string>
  {
    if files == [] then []
    else [files[0]] + Without(Dedup(files[1..]), files[0])
  }

  /**
   * The loop of `record` (src/memory.rs:45-48) as written: the files are
   * taken last to first, each removed from the list and put back at its head.
   */
  function MoveToFront(entry: seq<string>, files: seq<string>): seq<string>
  {
    if files == [] then entry
    else [files[0]] + Without(MoveToFront(entry, files[1..]), files[0])
  }

  /** The list before truncation: the new files first, then the old paths not among them. */
  function Promoted(entry: seq<string>, files: seq<string>): seq<string>
  {
    Dedup(files) + Unlisted(entry, files)
  }

  /** `Vec::truncate(n)`. */
  function Truncate(s: seq<string>, n: nat): (r: seq<string>)
    ensures |r| == if |s| <= n then |s| else n
    ensures r == s[..|r|]
  {
    if |s| <= n then s else s[..n]
  }

  /** The key `record` uses: the canonical path, or the raw one when that fails. */
  function KeyFor(dir: string, canon: Canon): string
  {
    match canon(dir)
    case Some(c) => c
    case None => dir
  }

  /** `Memory::get` on a store: only a canonical path is looked up. */
  function Lookup(entries: Store, dir: string, canon: Canon): (r: Option<seq<string>>)
    ensures canon(dir).None? ==> r.None?
    ensures canon(dir).Some? ==>
      (r.Some? <==> canon(dir).value in entries) &&
      (r.Some? ==> r.value == entries[canon(dir).value])
  {
    match canon(dir)
    case None => None
    case Some(key) => if key in entries then Some(entries[key]) else None
  }

  /** `Memory::record` on a store: only the entry for the directory's key changes. */
  function Recorded(entries: Store, dir: string, files: seq<string>, maxEntries: nat, canon: Canon): (r: Store)
    ensures r.Keys == entries.Keys + {KeyFor(dir, canon)}
    ensures forall k :: k in entries && k != KeyFor(dir, canon) ==> r[k] == entries[k]
    ensures |r[KeyFor(dir, canon)]| <= maxEntries
  {
    var key := KeyFor(dir, canon);
    var entry := if key in entries then entries[key] else [];
    entries[key := Truncate(Promoted(entry, files), maxEntries)]
  }

  /** `Memory::load`: the snapshot when one is present and parses, otherwise empty. */
  function LoadStore(snapshot: Option<Store>): Store
  {
    match snapshot
    case Some(s) => s
    case None => map[]
  }

  /** The `Memory` struct: its `entries` map is updated in place by `record`. */
  class Memory {
    var entries: Store

    /** `Memory::load`; a missing or unparsable snapshot gives an empty store. */
    constructor Load(snapshot: Option<Store>)
      ensures entries == LoadStore(snapshot)
      ensures snapshot.None? ==> entries == map[]
    {
      entries := LoadStore(snapshot);
    }

    /** `Memory::get`: the list stored under the canonical key, if any. */
    function Get(dir: string, canon: Canon): (r: Option<seq<string>>)
      reads this
      ensures r == Lookup(entries, dir, canon)
    {
      Lookup(entries, dir, canon)
    }

    /** `Memory::record`: move the files to the front, drop their old copies, truncate. */
    method Record(dir: string, files: seq<string>, maxEntries: nat, canon: Canon)
      modifies this
      ensures entries == Recorded(old(entries), dir, files, maxEntries, canon)
    {
      var key := KeyFor(dir, canon);
      var entry: seq<string> := if key in entries then entries[key] else [];
      ghost var initial := entry;
      var i := |files|;
      while i > 0
        invariant 0 <= i <= |files|
        invariant entry == MoveToFront(initial, files[i..])
      {
        i := i - 1;
        assert files[i..][1..] == files[i + 1..];
        entry := Without(entry, files[i]);
        entry := [files[i]] + entry;
      }
      assert files[0..] == files;
      MoveToFrontIsPromoted(initial, files);
      entry := Truncate(entry, maxEntries);
      entries := entries[key := entry];
    }
  }

  /** Removing a path distributes over concatenation. */
  lemma {:induction false} WithoutAppend(a: seq<string>, b: seq<string>, x: string)
    ensures Without(a + b, x) == Without(a, x) + Without(b, x)
  {
    if a == [] {
      assert a + b == b;
    } else {
      assert (a + b)[1..] == a[1..] + b;
      WithoutAppend(a[1..], b, x);
    }
  }

  /** Removing `x` from what is not among `files` removes what is not among `[x] + files`. */
  lemma {:induction false} WithoutUnlisted(s: seq<string>, files: seq<string>, x: string)
    ensures Without(Unlisted(s, files), x) == Unlisted(s, [x] + files)
  {
    if s != [] {
      WithoutUnlisted(s[1..], files, x);
      WithoutAppend(if s[0] in files then [] else [s[0]], Unlisted(s[1..], files), x);
    }
  }

  /** The loop of `record` computes the new files followed by the untouched old paths. */
  lemma {:induction false} MoveToFrontIsPromoted(entry: seq<string>, files: seq<string>)
    ensures MoveToFront(entry, files) == Promoted(entry, files)
  {
    if files == [] {
      assert Unlisted(entry, files) == entry by { UnlistedNoneListed(entry, files); }
    } else {
      var f, rest := files[0], files[1..];
      assert [f] + rest == files;
      MoveToFrontIsPromoted(entry, rest);
      assert MoveToFront(entry, files) == [f] + Without(Dedup(rest) + Unlisted(entry, rest), f);
      WithoutAppend(Dedup(rest), Unlisted(entry, rest), f);
      WithoutUnlisted(entry, rest, f);
      assert Without(Unlisted(entry, rest), f) == Unlisted(entry, files);
      assert Dedup(files) == [f] + Without(Dedup(rest), f);
    }
  }

  /** When no path of `s` is among `files`, nothing is removed. */
  lemma {:induction false} UnlistedNoneListed(s: seq<string>, files: seq<string>)
    requires forall y :: y in s ==> y !in files
    ensures Unlisted(s, files) == s
  {
    if s != [] {
      assert s[0] in s;
      UnlistedNoneListed(s[1..], files);
      assert [s[0]] + s[1..] == s;
    }
  }

  /** When every path of `s` is among `files`, everything is removed. */
  lemma {:induction false} UnlistedAllListed(s: seq<string>, files: seq<string>)
    requires forall y :: y in s ==> y in files
    ensures Unlisted(s, files) == []
  {
    if s != [] {
      assert s[0] in s;
      UnlistedAllListed(s[1..], files);
    }
  }

  /** Removing what is among `files` distributes over concatenation. */
  lemma {:induction false} UnlistedAppend(a: seq<string>, b: seq<string>, files: seq<string>)
    ensures Unlisted(a + b, files) == Unlisted(a, files) + Unlisted(b, files)
  {
    if a == [] {
      assert a + b == b;
    } else {
      assert (a + b)[1..] == a[1..] + b;
      UnlistedAppend(a[1..], b, files);
    }
  }

  /** The paths left by `retain`: those of `s` other than `x`. */
  lemma {:induction false} WithoutMembers(s: seq<string>, x: string)
    ensures forall y :: y in Without(s, x) <==> y in s && y != x
  {
    if s != [] {
      WithoutMembers(s[1..], x);
      assert s == [s[0]] + s[1..];
    }
  }

  /** The paths of `s` not among `files`. */
  lemma {:induction false} UnlistedMembers(s: seq<string>, files: seq<string>)
    ensures forall y :: y in Unlisted(s, files) <==> y in s && y !in files
  {
    if s != [] {
      UnlistedMembers(s[1..], files);
      assert s == [s[0]] + s[1..];
    }
  }

  /** Deduplication keeps every path and adds none. */
  lemma {:induction false} DedupMembers(files: seq<string>)
    ensures forall y :: y in Dedup(files) <==> y in files
  {
    if files != [] {
      DedupMembers(files[1..]);
      WithoutMembers(Dedup(files[1..]), files[0]);
      assert files == [files[0]] + files[1..];
    }
  }

  /** A list with a head has no repeats when its tail has none and lacks the head. */
  lemma NoDupCons(x: string, s: seq<string>)
    ensures NoDup([x] + s) <==> x !in s && NoDup(s)
  {
    var l := [x] + s;
    if x !in s && NoDup(s) {
      forall i, j | 0 <= i < j < |l| ensures l[i] != l[j] {
        if i == 0 {
          assert l[j] == s[j - 1];
        } else {
          assert l[i] == s[i - 1] && l[j] == s[j - 1];
        }
      }
    }
    if NoDup(l) {
      forall k | 0 <= k < |s| ensures s[k] != x {
        assert l[k + 1] == s[k] && l[0] == x;
      }
      forall i, j | 0 <= i < j < |s| ensures s[i] != s[j] {
        assert s[i] == l[i + 1] && s[j] == l[j + 1];
      }
    }
  }

  /** `retain` keeps a list free of repeats. */
  lemma {:induction false} WithoutNoDup(s: seq<string>, x: string)
    requires NoDup(s)
    ensures NoDup(Without(s, x))
  {
    if s != [] {
      assert s == [s[0]] + s[1..];
      NoDupCons(s[0], s[1..]);
      WithoutNoDup(s[1..], x);
      WithoutMembers(s[1..], x);
      if s[0] != x {
        NoDupCons(s[0], Without(s[1..], x));
      }
    }
  }

  /** Keeping what is not among `files` keeps a list free of repeats. */
  lemma {:induction false} UnlistedNoDup(s: seq<string>, files: seq<string>)
    requires NoDup(s)
    ensures NoDup(Unlisted(s, files))
  {
    if s != [] {
      assert s == [s[0]] + s[1..];
      NoDupCons(s[0], s[1..]);
      UnlistedNoDup(s[1..], files);
      UnlistedMembers(s[1..], files);
      if s[0] !in files {
        NoDupCons(s[0], Unlisted(s[1..], files));
      }
    }
  }

  /** Deduplication leaves no repeats. */
  lemma {:induction false} DedupNoDup(files: seq<string>)
    ensures NoDup(Dedup(files))
  {
    if files != [] {
      DedupNoDup(files[1..]);
      WithoutNoDup(Dedup(files[1..]), files[0]);
      WithoutMembers(Dedup(files[1..]), files[0]);
      NoDupCons(files[0], Without(Dedup(files[1..]), files[0]));
    }
  }

  /** `retain` of an absent path changes nothing. */
  lemma {:induction false} WithoutAbsent(s: seq<string>, x: string)
    requires x !in s
    ensures Without(s, x) == s
  {
    if s != [] {
      WithoutAbsent(s[1..], x);
      assert [s[0]] + s[1..] == s;
    }
  }

  /** A list without repeats is its own deduplication. */
  lemma {:induction false} DedupOfNoDup(files: seq<string>)
    requires NoDup(files)
    ensures Dedup(files) == files
  {
    if files != [] {
      assert files == [files[0]] + files[1..];
      NoDupCons(files[0], files[1..]);
      DedupOfNoDup(files[1..]);
      WithoutAbsent(files[1..], files[0]);
    }
  }

  /**
   * Deduplication read left to right: appending a path adds it at the end
   * exactly when it has not occurred before, so the first copy is the one kept.
   */
  lemma {:induction false} DedupSnoc(s: seq<string>, x: string)
    ensures Dedup(s + [x]) == Dedup(s) + (if x in s then [] else [x])
  {
    if s == [] {
      assert Dedup([x]) == [x] + Without([], x);
    } else {
      var h, t := s[0], s[1..];
      assert (s + [x])[0] == h && (s + [x])[1..] == t + [x];
      assert s == [h] + t;
      DedupSnoc(t, x);
      var tail := if x in t then [] else [x];
      WithoutAppend(Dedup(t), tail, h);
      assert Without(tail, h) == (if x in s then [] else [x]);
    }
  }

  /** Two lists without repeats and without common paths concatenate to one without repeats. */
  lemma NoDupAppend(a: seq<string>, b: seq<string>)
    requires NoDup(a) && NoDup(b)
    requires forall y :: y in a ==> y !in b
    ensures NoDup(a + b)
  {
    var l := a + b;
    forall i, j | 0 <= i < j < |l| ensures l[i] != l[j] {
      if j < |a| {
        assert l[i] == a[i] && l[j] == a[j];
      } else if i < |a| {
        assert l[i] == a[i] && l[j] == b[j - |a|];
        assert a[i] in a && b[j - |a|] in b;
      } else {
        assert l[i] == b[i - |a|] && l[j] == b[j - |a|];
      }
    }
  }

  /**
   * What `record` leaves under the directory's key: at most `maxEntries`
   * paths (none for 0); the passed files first, in their given order with
   * repeats collapsed; then, while room remains, the old paths not passed,
   * in their old order; only passed or previously stored paths; and no
   * repeats when the stored list had none.
   */
  lemma RecordedEntry(entries: Store, dir: string, files: seq<string>, maxEntries: nat, canon: Canon)
    ensures var key := KeyFor(dir, canon);
      var before := if key in entries then entries[key] else [];
      var after := Recorded(entries, dir, files, maxEntries, canon)[key];
      && after == Truncate(Dedup(files) + Unlisted(before, files), maxEntries)
      && |after| == (if |Dedup(files)| + |Unlisted(before, files)| <= maxEntries
                     then |Dedup(files)| + |Unlisted(before, files)| else maxEntries)
      && (|Dedup(files)| + |Unlisted(before, files)| <= maxEntries ==> after == Dedup(files) + Unlisted(before, files))
      && |after| <= maxEntries
      && (maxEntries == 0 ==> after == [])
      && Truncate(Dedup(files), maxEntries) <= after
      && (|Dedup(files)| <= maxEntries ==> after[|Dedup(files)|..] <= Unlisted(before, files))
      && (forall y :: y in after ==> y in files || y in before)
      && (forall y :: y in files ==> y !in after[|Truncate(Dedup(files), maxEntries)|..])
      && (NoDup(before) ==> NoDup(after))
  {
    var key := KeyFor(dir, canon);
    var before := if key in entries then entries[key] else [];
    var d, u := Dedup(files), Unlisted(before, files);
    var after := Recorded(entries, dir, files, maxEntries, canon)[key];
    assert after == Truncate(d + u, maxEntries);
    assert (d + u)[..|d|] == d;
    DedupMembers(files);
    UnlistedMembers(before, files);
    forall y | y in after ensures y in files || y in before {
      assert y in d + u;
    }
    if |d| <= maxEntries {
      assert after[|d|..] == (d + u)[|d|..|after|];
      assert after[|d|..] <= u;
    }
    if NoDup(before) {
      DedupNoDup(files);
      UnlistedNoDup(before, files);
      NoDupAppend(d, u);
    }
  }

  /** The entry-level step of `record`: promote, then truncate. */
  function RecordEntry(entry: seq<string>, files: seq<string>, maxEntries: nat): seq<string>
  {
    Truncate(Promoted(entry, files), maxEntries)
  }

  /** Re-recording a list that the new files already fill. */
  lemma RecordEntryIdempotentFull(entry: seq<string>, files: seq<string>, maxEntries: nat)
    requires maxEntries <= |Dedup(files)|
    ensures RecordEntry(RecordEntry(entry, files, maxEntries), files, maxEntries)
         == RecordEntry(entry, files, maxEntries)
  {
    var d, u := Dedup(files), Unlisted(entry, files);
    var once := RecordEntry(entry, files, maxEntries);
    assert once == d[..maxEntries] by { assert (d + u)[..maxEntries] == d[..maxEntries]; }
    DedupMembers(files);
    assert forall y :: y in once ==> y in d;
    UnlistedAllListed(once, files);
    assert Promoted(once, files) == d + [];
  }

  /** Promoting the files in front of old paths that are not among them changes nothing. */
  lemma PromoteAgain(v: seq<string>, files: seq<string>)
    requires forall y :: y in v ==> y !in files
    ensures Promoted(Dedup(files) + v, files) == Dedup(files) + v
  {
    var d := Dedup(files);
    DedupMembers(files);
    UnlistedAllListed(d, files);
    UnlistedNoneListed(v, files);
    UnlistedAppend(d, v, files);
  }

  /** Re-recording a list where the new files leave room for old paths. */
  lemma RecordEntryIdempotentRoom(entry: seq<string>, files: seq<string>, maxEntries: nat)
    requires maxEntries > |Dedup(files)|
    ensures RecordEntry(RecordEntry(entry, files, maxEntries), files, maxEntries)
         == RecordEntry(entry, files, maxEntries)
  {
    var d, u := Dedup(files), Unlisted(entry, files);
    var once := RecordEntry(entry, files, maxEntries);
    var v := u[..|once| - |d|];
    assert once == d + v by { assert (d + u)[..|once|] == d + v; }
    assert forall y :: y in v ==> y !in files by {
      UnlistedMembers(entry, files);
      assert forall y :: y in v ==> y in u;
    }
    PromoteAgain(v, files);
  }

  /** Recording the same files twice with the same bound gives the list recording once gives. */
  lemma RecordEntryIdempotent(entry: seq<string>, files: seq<string>, maxEntries: nat)
    ensures RecordEntry(RecordEntry(entry, files, maxEntries), files, maxEntries)
         == RecordEntry(entry, files, maxEntries)
  {
    if maxEntries <= |Dedup(files)| {
      RecordEntryIdempotentFull(entry, files, maxEntries);
    } else {
      RecordEntryIdempotentRoom(entry, files, maxEntries);
    }
  }

  /** Recording the same files twice in a directory stores what recording once stores. */
  lemma RecordIdempotent(entries: Store, dir: string, files: seq<string>, maxEntries: nat, canon: Canon)
    ensures Recorded(Recorded(entries, dir, files, maxEntries, canon), dir, files, maxEntries, canon)
         == Recorded(entries, dir, files, maxEntries, canon)
  {
    var key := KeyFor(dir, canon);
    var before := if key in entries then entries[key] else [];
    RecordEntryIdempotent(before, files, maxEntries);
  }

  /** A directory with no entry gets one, empty when no files are passed. */
  lemma RecordCreatesEntry(entries: Store, dir: string, maxEntries: nat, canon: Canon)
    requires KeyFor(dir, canon) !in entries
    ensures Recorded(entries, dir, [], maxEntries, canon) == entries[KeyFor(dir, canon) := []]
  {
  }

  /**
   * Directories that canonicalise to the same path share one entry: what
   * `record` stores through one is what `get` finds through the other.
   */
  lemma LookupAfterRecord(entries: Store, dir: string, other: string, files: seq<string>, maxEntries: nat, canon: Canon)
    requires canon(dir).Some? && canon(other) == canon(dir)
    ensures var key := canon(dir).value;
      Lookup(Recorded(entries, dir, files, maxEntries, canon), other, canon)
        == Some(RecordEntry(if key in entries then entries[key] else [], files, maxEntries))
  {
  }

  /** A directory that cannot be canonicalised is recorded under its raw path, which `get` never finds. */
  lemma RawKeyUnreachable(entries: Store, dir: string, files: seq<string>, maxEntries: nat, canon: Canon)
    requires canon(dir).None?
    ensures dir in Recorded(entries, dir, files, maxEntries, canon)
    ensures Lookup(Recorded(entries, dir, files, maxEntries, canon), dir, canon) == None
  {
  }

  /** Recording in one directory leaves what `get` finds for every other directory. */
  lemma LookupOtherUnchanged(entries: Store, dir: string, other: string, files: seq<string>, maxEntries: nat, canon: Canon)
    requires canon(other).Some? ==> canon(other).value != KeyFor(dir, canon)
    ensures Lookup(Recorded(entries, dir, files, maxEntries, canon), other, canon) == Lookup(entries, other, canon)
  {
  }

  /** Recording `[a, b]` then `[c]` in a directory gives `[c, a, b]`. */
  lemma RecencyOrderExample(entries: Store, dir: string, canon: Canon, a: string, b: string, c: string)
    requires a != b && b != c && a != c
    requires KeyFor(dir, canon) !in entries
    ensures Recorded(Recorded(entries, dir, [a, b], 10, canon), dir, [c], 10, canon)[KeyFor(dir, canon)] == [c, a, b]
  {
    assert Dedup([b]) == [b];
    assert Without([b], a) == [b];
    assert Dedup([a, b]) == [a, b];
    UnlistedNoneListed([a, b], [c]);
    assert Dedup([c]) == [c];
  }

  /** Recording `[a]` twice gives `[a]`: no duplicate, not extended. */
  lemma RecencyDedupExample(entries: Store, dir: string, canon: Canon, a: string)
    requires KeyFor(dir, canon) !in entries
    ensures Recorded(Recorded(entries, dir, [a], 10, canon), dir, [a], 10, canon)[KeyFor(dir, canon)] == [a]
  {
    assert Dedup([a]) == [a];
    assert Unlisted([a], [a]) == [];
  }

  /** Recording one path that is not yet stored puts it in front of the old entry. */
  lemma PromotedOneNew(entry: seq<string>, x: string)
    requires x !in entry
    ensures Promoted(entry, [x]) == [x] + entry
  {
    assert [x][1..] == [];
    assert Dedup([x]) == [x];
    UnlistedNoneListed(entry, [x]);
  }

  /** With a bound of 2, recording `[a]`, `[b]`, `[c]` in turn gives `[c, b]`. */
  lemma RecencyBoundExample(entries: Store, dir: string, canon: Canon, a: string, b: string, c: string)
    requires a != b && b != c && a != c
    requires KeyFor(dir, canon) !in entries
    ensures
      var e1 := Recorded(entries, dir, [a], 2, canon);
      var e2 := Recorded(e1, dir, [b], 2, canon);
      Recorded(e2, dir, [c], 2, canon)[KeyFor(dir, canon)] == [c, b]
  {
    var key := KeyFor(dir, canon);
    PromotedOneNew([], a);
    var e1 := Recorded(entries, dir, [a], 2, canon);
    assert e1[key] == [a];
    PromotedOneNew([a], b);
    var e2 := Recorded(e1, dir, [b], 2, canon);
    assert e2[key] == [b, a];
    PromotedOneNew([b, a], c);
    assert ([c] + [b, a])[..2] == [c, b];
  }
}
