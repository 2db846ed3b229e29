/** Physical memory as the page-table code reaches it: which frames the pool still has, which
    it has handed out, and what the handed-out ones hold. */
module FramePool {
  import opened Basics
  import opened Entries
  import opened PageTree

  function DecodeAll(words: seq<u64>): (s: seq<Pte>)
    ensures |s| == |words| && forall i :: 0 <= i < |s| ==> s[i] == Decode(words[i])
  {
    seq(|words|, i requires 0 <= i < |words| => Decode(words[i]))
  }

  function PutWord(words: seq<u64>, idx: nat, value: u64): seq<u64>
    requires idx < |words|
  {
    words[..idx] + [value] + words[idx + 1..]
  }

  lemma PutSame(words: map<nat, seq<u64>>, table: nat, idx: nat)
    requires table in words && idx < |words[table]|
    ensures words[table := PutWord(words[table], idx, words[table][idx])] == words
  {
    assert PutWord(words[table], idx, words[table][idx]) == words[table];
  }

  /** Everything the pool and its frames are at one moment. */
  datatype Snapshot = Snapshot(free: set<nat>, held: set<nat>, words: map<nat, seq<u64>>, bytes: map<nat, seq<byte>>) {
    ghost predicate Valid() {
      && free !! held
      && words.Keys <= held && bytes.Keys <= held && words.Keys !! bytes.Keys
      && (forall f :: f in free || f in held ==> f % PAGE_SIZE == 0 && f < PHYS_LIMIT)
      && (forall t :: t in words ==> |words[t]| == ENTRIES)
      && (forall p :: p in bytes ==> |bytes[p]| == PAGE_SIZE)
    }

    /** The table frames, decoded. */
    ghost function View(): Tables {
      map t | t in words :: DecodeAll(words[t])
    }
  }

  /** The root slots from `hi` on hold the same words. */
  ghost predicate UpperKept(s: Snapshot, s': Snapshot, root: nat, hi: nat) {
    root in s.words ==>
      && root in s'.words && |s'.words[root]| == |s.words[root]|
      && forall i :: hi <= i < |s.words[root]| ==> s'.words[root][i] == s.words[root][i]
  }

  /** From `s` to `s'` the tree under `root` grew from `tags` to `tags'`: each new table came
      from the pool, and no frame outside the tree and no root slot from `hi` on was touched. */
  ghost predicate Grew(s: Snapshot, tags: Tags, s': Snapshot, tags': Tags, root: nat, hi: nat) {
    var added := tags'.Keys - tags.Keys;
    && tags.Keys <= tags'.Keys && (forall t :: t in tags ==> tags'[t] == tags[t])
    && added <= s.free && s'.free == s.free - added && s'.held == s.held + added
    && s'.words.Keys == s.words.Keys + added
    && (forall f :: f in s.words && f !in tags ==> s'.words[f] == s.words[f])
    && s'.bytes == s.bytes
    && UpperKept(s, s', root, hi)
  }

  lemma GrewNone(s: Snapshot, tags: Tags, root: nat, hi: nat)
    ensures Grew(s, tags, s, tags, root, hi)
  {
  }

  lemma GrewTwice(s: Snapshot, tags: Tags, s': Snapshot, tags': Tags, s'': Snapshot, tags'': Tags, root: nat, hi: nat)
    requires s.Valid() && Grew(s, tags, s', tags', root, hi) && Grew(s', tags', s'', tags'', root, hi)
    ensures Grew(s, tags, s'', tags'', root, hi)
  {
    var first, second, both := tags'.Keys - tags.Keys, tags''.Keys - tags'.Keys, tags''.Keys - tags.Keys;
    assert both == first + second;
    assert s.free - first - second == s.free - both;
    assert s.held + first + second == s.held + both;
    assert s.words.Keys + first + second == s.words.Keys + both;
    forall f | f in s.words && f !in tags
      ensures s''.words[f] == s.words[f]
    {
      assert f in s'.words;
    }
  }

  /** The root table holds the words it held. */
  ghost predicate RootHeld(s: Snapshot, s': Snapshot, root: nat) {
    root in s.words ==> root in s'.words && s'.words[root] == s.words[root]
  }

  lemma RootHeldTwice(s: Snapshot, s': Snapshot, s'': Snapshot, root: nat)
    requires RootHeld(s, s', root) && RootHeld(s', s'', root)
    ensures RootHeld(s, s'', root)
  {
  }

  /** The root slot on the way to `virt` is taken, and open to ring 3 if `user` asks for that. */
  ghost predicate RootSlotTaken(s: Snapshot, root: nat, virt: nat, user: bool) {
    && root in s.words && |s.words[root]| == ENTRIES && Decode(s.words[root][Index(virt, 3)]).present
    && (user ==> Decode(s.words[root][Index(virt, 3)]).user)
  }

  /** And so are those on the way to every address of the range. */
  ghost predicate RootSlotsTaken(s: Snapshot, root: nat, virt: nat, size: nat, user: bool) {
    forall a: nat :: virt <= a < virt + size ==> RootSlotTaken(s, root, a, user)
  }

  lemma StillTaken(s: Snapshot, s': Snapshot, root: nat, virt: nat, user: bool)
    requires RootSlotTaken(s, root, virt, user) && RootHeld(s, s', root)
    ensures RootSlotTaken(s', root, virt, user)
  {
  }

  /** The frames of `back` went back to the pool, and nothing else happened. */
  ghost predicate Released(s: Snapshot, s': Snapshot, back: set<nat>) {
    && s'.free == s.free + back && s'.held == s.held - back
    && s'.words == s.words - back && s'.bytes == s.bytes - back
  }

  class Frames {
    var free: set<nat>
    var held: set<nat>
    var words: map<nat, seq<u64>>
    var bytes: map<nat, seq<byte>>

    ghost function Now(): Snapshot
      reads this
    {
      Snapshot(free, held, words, bytes)
    }

    ghost predicate Valid()
      reads this
    {
      Now().Valid()
    }

    ghost function View(): Tables
      reads this
    {
      Now().View()
    }

    /** `mem::alloc_frame`: some frame nobody holds, or nothing when there is none. */
    method AllocFrame() returns (r: Option<nat>)
      requires Valid()
      modifies this
      ensures Valid() && words == old(words) && bytes == old(bytes)
      ensures r.None? <==> old(free) == {}
      ensures r.None? ==> Now() == old(Now())
      ensures r.Some? ==> r.value in old(free) && free == old(free) - {r.value} && held == old(held) + {r.value}
    {
      if free == {} {
        return None;
      }
      var f :| f in free;
      free := free - {f};
      held := held + {f};
      return Some(f);
    }

    /** `mem::free_frame`. A frame can be returned only while it is held: a second return of the
        same frame has no state to start from. Its contents are gone. */
    method FreeFrame(f: nat)
      requires Valid() && f in held
      modifies this
      ensures Valid() && Released(old(Now()), Now(), {f})
    {
      free := free + {f};
      held := held - {f};
      words := words - {f};
      bytes := bytes - {f};
    }

    /** `write_bytes(.., 0, PAGE_SIZE)` over a frame about to hold table entries. */
    method ZeroTable(f: nat)
      requires Valid() && f in held && f !in bytes
      modifies this`words
      ensures Valid() && words == old(words)[f := seq(ENTRIES, _ => 0)]
    {
      words := words[f := seq(ENTRIES, _ => 0)];
    }

    /** `write_bytes(.., 0, PAGE_SIZE)` over a frame about to hold data. */
    method ZeroPage(f: nat)
      requires Valid() && f in held && f !in words
      modifies this`bytes
      ensures Valid() && bytes == old(bytes)[f := seq(PAGE_SIZE, _ => 0)]
    {
      bytes := bytes[f := seq(PAGE_SIZE, _ => 0)];
    }

    /** `copy_nonoverlapping(source, frame, |source|)`. */
    method CopyIn(f: nat, source: seq<byte>)
      requires Valid() && f in bytes && |source| <= PAGE_SIZE
      modifies this`bytes
      ensures Valid() && bytes == old(bytes)[f := source + old(bytes)[f][|source|..]]
    {
      bytes := bytes[f := source + bytes[f][|source|..]];
    }

    /** `KernelFrames::alloc_table`: a frame, zeroed. */
    method AllocTable() returns (r: Option<nat>)
      requires Valid()
      modifies this
      ensures Valid() && bytes == old(bytes)
      ensures r.None? ==> old(free) == {} && Now() == old(Now())
      ensures r.Some? ==>
                && r.value in old(free) && free == old(free) - {r.value} && held == old(held) + {r.value}
                && words == old(words)[r.value := seq(ENTRIES, _ => 0)]
    {
      r := AllocFrame();
      if r.Some? {
        ZeroTable(r.value);
      }
    }

    method ReadEntry(table: nat, idx: nat) returns (entry: u64)
      requires Valid() && table in words && idx < ENTRIES
      ensures entry == words[table][idx]
      ensures table in View() && idx < |View()[table]| && View()[table][idx] == Decode(entry)
    {
      entry := words[table][idx];
    }

    method WriteEntry(table: nat, idx: nat, value: u64)
      requires Valid() && table in words && idx < ENTRIES
      modifies this`words
      ensures Valid() && words == old(words)[table := PutWord(old(words)[table], idx, value)]
    {
      words := words[table := PutWord(words[table], idx, value)];
    }
  }

  /** Writing one word writes one entry of the decoded view. */
  lemma ViewOfWrite(s: Snapshot, table: nat, idx: nat, value: u64)
    requires s.Valid() && table in s.words && idx < ENTRIES
    ensures s.(words := s.words[table := PutWord(s.words[table], idx, value)]).View() ==
            Write(s.View(), table, idx, Decode(value))
  {
    var s' := s.(words := s.words[table := PutWord(s.words[table], idx, value)]);
    assert s'.View().Keys == Write(s.View(), table, idx, Decode(value)).Keys;
    assert DecodeAll(PutWord(s.words[table], idx, value)) == DecodeAll(s.words[table])[idx := Decode(value)];
  }

  lemma ViewOfZeros()
    ensures DecodeAll(seq(ENTRIES, _ => 0)) == seq(ENTRIES, _ => ABSENT)
  {
    DecodeZero();
  }
}
