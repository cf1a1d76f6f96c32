/** What writing and reading the allowlist device amounts to for its user. */
module DeviceFacts {
  import opened Words
  import opened Text
  import opened AllowlistText
  import opened AllowlistPrint
  import opened AllowlistSpec
  import opened Registers
  import opened ModuleRuns

  predicate Repeats(es: Table) {
    exists i, j :: 0 <= i < j < |es| && es[i].msr == es[j].msr
  }

  /**
    * A write of a non-trivial size installs exactly the texts of the grammar that hold entries, all with
    * different addresses; a repeated address empties the table; every other text leaves it as it was.
    */
  lemma InstallsGrammar(table: Table, input: seq<byte>, es: Table)
    requires 2 < |input| && |input| + 1 <= MAX_WLIST_BSIZE
    requires exists rows, tail :: Spells(input, rows, tail, es)
    ensures es != [] && !Repeats(es) ==> WriteOutcome(table, input) == Written(|input|, es)
    ensures Repeats(es) ==> WriteOutcome(table, input) == Written(ENOTUNIQ, [])
    ensures es == [] ==> WriteOutcome(table, input) == Written(ENOMSG, table)
  {
    hide Parse, Spells;
    ParserIsGrammar(input, es);
  }

  /** A write of at most two bytes, whatever they are, clears the list. */
  lemma ShortWriteClears(table: Table, input: seq<byte>)
    requires |input| <= 2
    ensures WriteOutcome(table, input) == Written(|input|, [])
  {}

  lemma RefusesTheRest(table: Table, input: seq<byte>)
    requires 2 < |input| && |input| + 1 <= MAX_WLIST_BSIZE
    requires !exists es, rows, tail :: Spells(input, rows, tail, es)
    ensures var w := WriteOutcome(table, input); ParseError(w.ret) && w.table == table
  {
    hide Spells, ParseFrom;
    var r := Parse(input);
    if r.Entries? {
      ParserIsGrammar(input, r.table);
    }
  }

  /** What a write leaves does not depend on the list in front of it. */
  ghost predicate Discards(input: seq<byte>) {
    forall t, t' :: WriteOutcome(t, input).table == WriteOutcome(t', input).table
  }

  /** A write discards the previous allowlist exactly if it clears it or gets as far as asking for a new table. */
  lemma DiscardsIff(input: seq<byte>)
    ensures Discards(input) <==> |input| <= 2 || Creates(input)
  {
    hide Parse;
    var t, t' := [Entry(1, 1)], [];
    assert WriteOutcome(t, input).table == WriteOutcome(t', input).table <==> |input| <= 2 || Creates(input);
  }

  // ---- What can be installed ----

  /** Addresses differ, and the entries fit a text of the size limit at four bytes each. */
  predicate Sound(table: Table) {
    Unique(table) && |table| <= 32768
  }

  lemma WriteKeepsSound(table: Table, input: seq<byte>)
    requires Sound(table)
    ensures Sound(WriteOutcome(table, input).table)
  {
    hide ParseFrom;
    EntriesAreBounded(input, 0);
  }

  /** In every state of every run the table is sound. */
  lemma {:induction false} RunKeepsSound(env: Env, s: State, events: seq<Event>)
    requires Sound(s.table)
    ensures Sound(Run(env, s, events).table)
    decreases |events|
  {
    hide WriteOutcome, Sound, DoLookup, DoLoad, DoStore, DoCheck, DoGrant, Stored;
    if events != [] {
      var before := Run(env, s, events[..|events| - 1]);
      RunKeepsSound(env, s, events[..|events| - 1]);
      var e := events[|events| - 1];
      if e.DeviceWrite? {
        WriteKeepsSound(before.table, e.input);
      } else {
        OnlyDeviceWrites(env, before, e);
      }
    }
  }

  /** A comment may be put right behind the header of a listing, for example. */
  lemma BehindHeader(table: Table, count: nat)
    requires table != [] && count >= LINE_MAX
    ensures var text := ReadOn(table, 0, count); |text| > 30 && Boundary(text, 0, 30)
  {
    hide ReadOn, Filler;
    ReadOnPrints(table, count);
    PrintedLength(0, table[0]);
    LeadIsFiller(0);
    var text := ReadOn(table, 0, count);
    assert text[..30] == HEADER;
    assert text[0..30] == HEADER;
  }

  /** Filler put in where an entry may start does not matter to the device either, as long as the size is right. */
  lemma CommentsInstallTheSame(table: Table, t: seq<byte>, q: nat, f: seq<byte>)
    requires q <= |t| && Boundary(t, 0, q) && Filler(f)
    requires 2 < |t| && |Insert(t, q, f)| + 1 <= MAX_WLIST_BSIZE
    ensures var w, w' := WriteOutcome(table, t), WriteOutcome(table, Insert(t, q, f));
            w'.table == w.table && (w'.ret == w.ret < 0 || (w.ret == |t| && w'.ret == |t| + |f|))
  {
    hide ParseFrom, Boundary, Filler;
    CommentsAreNeutral(t, q, f);
  }

  // ---- Reading the device and writing back what it printed ----

  predicate Wide(table: Table, pos: nat)
    requires pos <= |table|
  {
    exists i | pos <= i < |table| :: table[i].msr >= 0x1_0000_0000
  }

  /** The listing has 30 to 38 bytes for each entry and 30 for the header. */
  lemma {:induction false} ListingLength(table: Table, pos: nat, count: nat)
    requires pos <= |table| && count >= LINE_MAX
    ensures var n := |ReadOn(table, pos, count)| - (if pos == 0 && table != [] then 30 else 0);
            var k := |table| - pos;
            30 * k <= n <= 38 * k && (!Wide(table, pos) ==> n == 30 * k)
    decreases |table| - pos
  {
    hide Render, PrintedRow;
    if pos < |table| {
      PrintedLength(pos, table[pos]);
      ListingLength(table, pos + 1, count);
    }
  }

  /**
    * Writing to the device what it printed installs the printed table again, whatever was installed meanwhile,
    * if and only if the text is within the size limit; otherwise nothing changes.
    */
  lemma Reinstall(table: Table, current: Table, count: nat)
    requires Unique(table) && table != [] && count >= LINE_MAX
    ensures var text := ReadOn(table, 0, count);
            WriteOutcome(current, text) ==
              if |text| < MAX_WLIST_BSIZE then Written(|text|, table) else Written(E2BIG, current)
  {
    hide Parse, Unique, ReadOn;
    PrintParse(table, count);
    ListingLength(table, 0, count);
  }

  /** A table of 32-bit addresses can be reinstalled from its listing exactly up to 4368 entries. */
  lemma ReinstallLimit(table: Table, current: Table, count: nat)
    requires Unique(table) && table != [] && count >= LINE_MAX && !Wide(table, 0)
    ensures WriteOutcome(current, ReadOn(table, 0, count)).ret > 0 <==> |table| <= 4368
  {
    hide WriteOutcome, ReadOn, Unique, Wide;
    Reinstall(table, current, count);
    ListingLength(table, 0, count);
  }
}
