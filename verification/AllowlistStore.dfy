/** The allowlist in the driver: a table of entries, a hash index into it, and the device operations. */
module AllowlistStore {
  import opened Words
  import opened Text
  import opened AllowlistText
  import opened AllowlistPrint
  import opened AllowlistParser
  import opened AllowlistSpec

  const BUCKETS := 64

  type Bucket = b: int | 0 <= b < 64

  /** A link of a hash chain: it names a slot of the table it was added from, which may since be freed. */
  datatype Node = Node(home: array<Entry>, slot: nat)

  lemma BehindNext(b: seq<byte>, p: nat, es: Table, e: Entry, n: nat)
    requires p <= |b| && Next(b, p) == Item(e, n)
    ensures Behind(es, ParseFrom(b, p)) == Behind(es + [e], ParseFrom(b, n))
  {
    hide Next;
    var rest := ParseFrom(b, n);
    if rest.Entries? {
      assert es + ([e] + rest.table) == es + [e] + rest.table;
    }
  }

  lemma ParseStep(b: seq<byte>, p: nat)
    requires p <= |b|
    ensures Next(b, p).Done? ==> ParseFrom(b, p) == Entries([])
    ensures Next(b, p).Fail? ==> ParseFrom(b, p) == Rejected(Next(b, p).code)
    ensures Next(b, p).Item? ==> Next(b, p).next > p
  {
    hide Next;
  }

  /** Pass 2 follows pass 1: the entries that were counted come again, in order, and then the end. */
  lemma FollowParse(b: seq<byte>, p: nat, es: Table, k: nat)
    requires p <= |b| && k <= |es| && ParseFrom(b, p) == Entries(es[k..])
    ensures !Next(b, p).Fail?
    ensures Next(b, p).Done? <==> k == |es|
    ensures Next(b, p).Item? ==>
              Next(b, p).entry == es[k] && ParseFrom(b, Next(b, p).next) == Entries(es[k + 1..])
  {
    hide Next;
    var r := Next(b, p);
    if r.Item? {
      var rest := ParseFrom(b, r.next);
      assert es[k..] == [r.entry] + rest.table;
      assert es[k..][1..] == es[k + 1..];
    }
  }

  /** Where the parse of a rejected text fails. */
  ghost function FailPosition(b: seq<byte>, p: nat): (q: nat)
    requires p <= |b| && ParseFrom(b, p).Rejected?
    ensures q <= |b| && Next(b, q).Fail? && ParseFrom(b, p) == Rejected(Next(b, q).code)
    decreases |b| - p
  {
    if Next(b, p).Fail? then p else FailPosition(b, Next(b, p).next)
  }

  class Allowlist {
    const hash: u64 -> Bucket
    const chains: array<seq<Node>>
    var table: array?<Entry>
    var numEntries: int

    /** The first `k` slots of the table, and nothing else, are in the index, each under its own hash. */
    ghost predicate Indexed(k: nat)
      reads this, chains, table
    {
      && chains.Length == BUCKETS
      && table != null && k <= table.Length
      && (forall b, i | 0 <= b < BUCKETS && 0 <= i < |chains[b]| ::
            chains[b][i].home == table && chains[b][i].slot < k && hash(table[chains[b][i].slot].msr) == b)
      && (forall j | 0 <= j < k :: Node(table, j) in chains[hash(table[j].msr)])
      && Unique(table[..k])
    }

    /** With a table, every link names a slot of it; without one, the links are not looked at. */
    ghost predicate Valid()
      reads this, chains, table
    {
      && chains.Length == BUCKETS
      && (table != null ==> numEntries == table.Length && Indexed(table.Length))
    }

    /** The entry count agrees with the table; only a failed allocation breaks this. */
    ghost predicate Synced()
      reads this
    {
      table == null ==> numEntries == 0
    }

    /** There is no table, but chains still name slots of one that was freed. */
    ghost predicate Stale()
      reads this, chains
    {
      table == null && exists b | 0 <= b < chains.Length :: chains[b] != []
    }

    ghost function Contents(): Table
      reads this, table
    {
      if table == null then [] else table[..]
    }

    constructor (hash: u64 -> Bucket)
      ensures Valid() && Synced() && Contents() == [] && fresh(chains) && this.hash == hash
    {
      this.hash := hash;
      chains := new seq<Node>[BUCKETS](_ => []);
      table := null;
      numEntries := 0;
    }

    method HashInit()
      modifies chains
      ensures forall b | 0 <= b < chains.Length :: chains[b] == []
    {
      forall b | 0 <= b < chains.Length {
        chains[b] := [];
      }
    }

    /** Frees the table; the chains keep naming its slots. */
    method Delete()
      modifies this`table, this`numEntries
      ensures table == null
      ensures numEntries == if old(table) == null then old(numEntries) else 0
    {
      if table == null {
        return;
      }
      table := null;
      numEntries := 0;
    }

    method Create(n: nat, allocates: bool) returns (res: int)
      requires chains.Length == BUCKETS
      modifies this`table, this`numEntries, chains
      ensures numEntries == n
      ensures allocates ==> res == 0 && Indexed(0) && fresh(table) && table.Length == n
      ensures !allocates ==> res == ENOMEM && table == null
    {
      HashInit();
      Delete();
      numEntries := n;
      if !allocates {
        return ENOMEM;
      }
      table := new Entry[n](_ => Entry(0, 0));
      return 0;
    }

    /** Looks `m` up in the index. With `k` slots indexed, this is a linear scan of those slots. */
    method Find(m: u64, ghost k: nat) returns (r: Option<nat>)
      requires table != null ==> Indexed(k)
      ensures r == if table == null then None else Scan(table[..k], m)
    {
      if table == null {
        return None;
      }
      var chain := chains[hash(m)];
      var i := 0;
      while i < |chain|
        invariant i <= |chain|
        invariant forall x | 0 <= x < i :: table[chain[x].slot].msr != m
      {
        var node := chain[i];
        // The link is followed: it has to be one into the current table.
        assert node == chains[hash(m)][i] && node.home == table;
        if node.home[node.slot].msr == m {
          ScanIs(table[..k], m, node.slot);
          return Some(node.slot);
        }
        i := i + 1;
      }
      forall j | 0 <= j < k
        ensures table[j].msr != m
      {
        assert Node(table, j) in chains[hash(table[j].msr)];
      }
      return None;
    }

    method Add(slot: nat)
      requires Indexed(slot) && slot < table.Length
      requires Scan(table[..slot], table[slot].msr).None?
      modifies chains
      ensures Indexed(slot + 1)
    {
      var b := hash(table[slot].msr);
      chains[b] := [Node(table, slot)] + chains[b];
      assert table[..slot + 1] == table[..slot] + [table[slot]];
      forall j | 0 <= j < slot + 1
        ensures Node(table, j) in chains[hash(table[j].msr)]
      {
        if j == slot {
          assert chains[b][0] == Node(table, slot);
        } else {
          var c := hash(table[j].msr);
          assert Node(table, j) in old(chains[c]);
        }
      }
    }

    /** Pass 1: checks the whole text and counts its entries. A bad number keeps its delimiter overwritten. */
    method CountEntries(kbuf: array<byte>) returns (err: int, num: nat)
      requires Terminated(kbuf)
      modifies kbuf
      ensures match ParseFrom(old(Content(kbuf)), 0)
              case Rejected(code) =>
                var b := old(Content(kbuf));
                err == code && kbuf[..] == Poked(old(kbuf[..]), NextPoke(b, FailPosition(b, 0)))
              case Entries(es) => err == 0 && num == |es| && kbuf[..] == old(kbuf[..])
    {
      hide Next, ParseFrom;
      ghost var b := Content(kbuf);
      ghost var es: Table := [];
      num := 0;
      var s, res := 0, 1;
      while res > 0
        invariant s <= |b| && kbuf[..] == old(kbuf[..])
        invariant num == |es|
        invariant res > 0 ==> ParseFrom(b, 0) == Behind(es, ParseFrom(b, s))
        invariant res > 0 && ParseFrom(b, s).Rejected? ==> FailPosition(b, s) == FailPosition(b, 0)
        invariant res <= 0 ==> res == 0 && ParseFrom(b, 0) == Entries(es)
        decreases if res > 0 then |b| - s + 1 else 0
      {
        ghost var s0 := s;
        res, s := ParseNext(kbuf, s, null, 0);
        ParseStep(b, s0);
        if res < 0 {
          return res, num;
        }
        if res != 0 {
          num := num + 1;
          ghost var e := Next(b, s0).entry;
          BehindNext(b, s0, es, e, s);
          es := es + [e];
        }
      }
      return 0, num;
    }

    /**
      * Pass 2: fills and indexes a fresh table from a text that pass 1 accepted. The slot counter runs one
      * past the table, but is not written there; no parse fails.
      */
    method FillTable(kbuf: array<byte>) returns (err: int)
      requires Terminated(kbuf)
      requires ParseFrom(Content(kbuf), 0).Entries?
      requires Indexed(0) && table.Length == |ParseFrom(Content(kbuf), 0).table| == numEntries
      modifies kbuf, this`table, this`numEntries, chains, table
      ensures var es := old(ParseFrom(Content(kbuf), 0).table);
              if Unique(es) then
                err == 0 && table == old(table) && table[..] == es && Indexed(|es|) && numEntries == |es|
              else
                err == ENOTUNIQ && Stale() && numEntries == 0
    {
      hide Next, ParseFrom, Scan;
      ghost var b := Content(kbuf);
      ghost var es := ParseFrom(b, 0).table;
      var entry, s, res := 0, 0, 1;
      while res > 0
        invariant s <= |b| && kbuf[..] == old(kbuf[..])
        invariant table == old(table) && numEntries == table.Length == |es|
        invariant if res > 0 then entry <= |es| && ParseFrom(b, s) == Entries(es[entry..]) else entry == |es| + 1
        invariant var k := if res > 0 then entry else |es|; Indexed(k) && table[..k] == es[..k]
        decreases if res > 0 then |b| - s + 1 else 0
      {
        ghost var before := table[..];
        FollowParse(b, s, es, entry);
        res, s := ParseNext(kbuf, s, table, entry);
        if res < 0 {
          // The branch for a corrupted table cannot be reached.
          assert false;
        }
        if res != 0 {
          assert table[..] == before[entry := es[entry]];
          assert table[..entry] == before[..entry];
          assert Indexed(entry);
          var found := Find(table[entry].msr, entry);
          if found.Some? {
            assert es[found.value] == table[..entry][found.value];
            assert chains[hash(table[found.value].msr)] != [];
            Delete();
            return ENOTUNIQ;
          }
          Add(entry);
          assert table[..entry + 1] == es[..entry + 1];
        }
        entry := entry + 1;
      }
      assert table[..] == table[..|es|] == es[..|es|] == es;
      return 0;
    }

    /** A write to the device. `allocates` tells whether memory for the table can be had. */
    method Write(input: seq<byte>, allocates: bool) returns (ret: int)
      requires Valid()
      modifies this`table, this`numEntries, chains
      ensures Valid()
      ensures table == old(table) || table == null || fresh(table)
      ensures allocates ==>
                var w := WriteOutcome(old(Contents()), input);
                && ret == w.ret && Contents() == w.table
                && (ret == ENOTUNIQ ==> Stale())
      ensures !allocates ==>
                var w := WriteOutcome(old(Contents()), input);
                if Creates(input) then ret == ENOMEM && table == null && numEntries == |Parse(input).table|
                else ret == w.ret && Contents() == w.table
      ensures Synced() == if Creates(input) then allocates else old(Synced())
    {
      hide ParseFrom;
      var count := |input|;
      if count <= 2 {
        Delete();
        HashInit();
        return count;
      }
      if count + 1 > MAX_WLIST_BSIZE {
        return E2BIG;
      }
      var kbuf := new byte[count + 1](i => if 0 <= i < count then input[i] else NUL);
      assert Content(kbuf) == input;
      var err, num := CountEntries(kbuf);
      if err != 0 {
        return err;
      }
      if num == 0 {
        return ENOMSG;
      }
      assert Content(kbuf) == input;
      err := Create(num, allocates);
      if err < 0 {
        return err;
      }
      err := FillTable(kbuf);
      assert table != null ==> table[..table.Length] == table[..];
      return if err != 0 then err else count;
    }

    /**
      * A read of the device at file position `pos`; None if it goes through a null table, which takes an
      * allocation that failed and a count that was left behind.
      */
    method Read(pos: int, count: nat) returns (r: Option<ReadResult>)
      requires Valid()
      ensures r == if table == null && 0 <= pos < numEntries then None else Some(ReadOutcome(Contents(), pos, count))
      ensures Synced() ==> r.Some?
    {
      if pos >= numEntries || pos < 0 {
        return Some(ReadResult(0, [], 0));
      }
      if table == null {
        return None;
      }
      var e := table[pos];
      var kbuf := Render(PrintedRow(if pos == 0 then HEADER else [], e));
      if |kbuf| > count {
        return Some(ReadResult(E2BIG, [], 0));
      }
      return Some(ReadResult(|kbuf|, kbuf, pos + 1));
    }

    /** msr_allowlist_maskexists */
    method MaskExists(reg: u64) returns (exists_: bool)
      requires Valid()
      ensures exists_ == Listed(Contents(), reg)
      ensures exists_ <==> exists i | 0 <= i < |Contents()| :: Contents()[i].msr == reg
    {
      var e := Find(reg, if table == null then 0 else table.Length);
      assert table != null ==> table[..table.Length] == table[..];
      return e.Some?;
    }

    /** msr_allowlist_writemask: the lookup and the read of the entry it finds. */
    method WriteMask(reg: u64) returns (mask: bv64)
      requires Valid()
      ensures mask == MaskOf(Contents(), reg)
      ensures forall i | 0 <= i < |Contents()| && Contents()[i].msr == reg :: mask == Bits(Contents()[i].wmask)
      ensures (forall i | 0 <= i < |Contents()| :: Contents()[i].msr != reg) ==> mask == 0
    {
      hide Bits, Scan;
      var e := Find(reg, if table == null then 0 else table.Length);
      assert table != null ==> table[..table.Length] == table[..];
      if e.Some? {
        MaskIs(table[..], e.value);
      }
      return if e.Some? then Bits(table[e.value].wmask) else 0;
    }
  }
}
