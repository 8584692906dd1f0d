/** Reading a CREG file: data blocks into records, navigation records into a tree. */
module CregParser {
  import opened Bytes
  import opened CregRecord
  import opened CregPlacement

  const NONE: nat := 0xffff_ffff
  const CREG: bytes := [67, 82, 69, 71]
  const RGKN: bytes := [82, 71, 75, 78]
  const RGDB: bytes := [82, 71, 68, 66]

  datatype Tree = Key(name: bytes, values: seq<Value>, kids: Forest)
  datatype Forest = NoKids | Kids(head: Tree, tail: Forest)

  type Record = (bytes, seq<Value>)
  type Records = map<nat, Record>

  // ----- data blocks

  predicate Blank(r: Record) { r.0 == [] && r.1 == [] }

  /** Adds a record; of two with one identity, one without name and values gives way. */
  function AddRecord(acc: Records, identity: nat, r: Record): Parsed<Records> {
    if identity !in acc then Good(acc[identity := r])
    else if Blank(r) then Good(acc)
    else if Blank(acc[identity]) then Good(acc[identity := r])
    else Bad
  }

  /** An identity stored without its block number gets it from the block. */
  function FullIdentity(identity: nat, block: nat): nat { if identity < 0x1_0000 then identity + 0x1_0000 * block else identity }

  /** Reads one record at a cursor: its extent, its identity and what it says. */
  function RecordAt(data: bytes, cursor: nat, end: nat): Parsed<(nat, nat, Record)>
    requires end <= |data|
  {
    if cursor + 20 > end then Bad
    else
      var room, used := U32(data, cursor), U32(data, cursor + 8);
      if room < 20 || cursor + room > end || used < 20 || used > room then Bad
      else match ReadRecord(data[cursor..cursor + used])
        case Bad => Bad
        case Good(r) => Good((room, U32(data, cursor + 4), r))
  }

  function ReadRecords(data: bytes, cursor: nat, end: nat, n: nat, block: nat, acc: Records): Parsed<Records>
    requires end <= |data|
    decreases n
  {
    if n == 0 then Good(acc)
    else match RecordAt(data, cursor, end)
      case Bad => Bad
      case Good(r) => match AddRecord(acc, FullIdentity(r.1, block), r.2)
        case Bad => Bad
        case Good(more) => ReadRecords(data, cursor + r.0, end, n - 1, block, more)
  }

  predicate BlockThere(data: bytes, at: nat) {
    at + 32 <= |data| && data[at..at + 4] == RGDB && 44 <= U32(data, at + 4) && at + U32(data, at + 4) <= |data|
  }

  /** Reads the blocks from an offset on: the records, and where the last block ends. */
  function ReadBlocks(data: bytes, at: nat, n: nat, acc: Records): Parsed<(Records, nat)>
    decreases n
  {
    if n == 0 then Good((acc, at))
    else if !BlockThere(data, at) then Bad
    else match ReadRecords(data, at + 32, at + U32(data, at + 4), U16(data, at + 22), U16(data, at + 14), acc)
      case Bad => Bad
      case Good(more) => ReadBlocks(data, at + U32(data, at + 4), n - 1, more)
  }

  // ----- navigation

  datatype Nav = Nav(parent: nat, child: nat, peer: nat, identity: nat)

  predicate NavThere(data: bytes, used: nat, relative: nat) { 32 <= relative && relative + 28 <= used && 32 + relative + 28 <= |data| }

  function NavAt(data: bytes, relative: nat): Nav
    requires 32 + relative + 28 <= |data|
  {
    Nav(U32(data, 32 + relative + 12), U32(data, 32 + relative + 16), U32(data, 32 + relative + 20), U32(data, 32 + relative + 24))
  }

  function Offsets(n: nat): (s: set<nat>)
    ensures forall o: nat :: o in s <==> o < n
  {
    if n == 0 then {} else Offsets(n - 1) + {n - 1}
  }

  /** Reads a key and its subkeys; a record met twice is an error. */
  function ReadKey(data: bytes, used: nat, records: Records, relative: nat, parent: nat, isRoot: bool,
                   visited: set<nat>): (r: (Parsed<Tree>, set<nat>))
    ensures r.0.Good? ==> visited + {relative} <= r.1 && relative !in visited && NavThere(data, used, relative)
    decreases Offsets(used) - visited, 0
  {
    if relative in visited || !NavThere(data, used, relative) then (Bad, visited)
    else
      var nav := NavAt(data, relative);
      if nav.parent != parent || (!isRoot && nav.identity !in records) then (Bad, visited)
      else
        assert relative in Offsets(used);
        var kids := ReadPeers(data, used, records, nav.child, relative, visited + {relative}, {});
        match kids.0
        case Bad => (Bad, kids.1)
        case Good(f) =>
          var record := if isRoot then ([], []) else records[nav.identity];
          (Good(Key(record.0, record.1, f)), kids.1)
  }

  /** Reads a chain of peers; no two may have one name up to case. */
  function ReadPeers(data: bytes, used: nat, records: Records, relative: nat, parent: nat, visited: set<nat>,
                     names: set<bytes>): (r: (Parsed<Forest>, set<nat>))
    ensures r.0.Good? ==> visited <= r.1
    decreases Offsets(used) - visited, 1
  {
    if relative == NONE then (Good(NoKids), visited)
    else
      var first := ReadKey(data, used, records, relative, parent, false, visited);
      match first.0
      case Bad => (Bad, first.1)
      case Good(t) =>
        if UpperName(t.name) in names then (Bad, first.1)
        else
          assert relative in Offsets(used) - visited && relative !in Offsets(used) - first.1;
          var rest := ReadPeers(data, used, records, NavAt(data, relative).peer, parent, first.1, names + {UpperName(t.name)});
          match rest.0
          case Bad => (Bad, rest.1)
          case Good(f) => (Good(Kids(t, f)), rest.1)
  }

  // ----- the file

  predicate HeadThere(data: bytes) {
    && 64 <= |data| && data[..4] == CREG && data[32..36] == RGKN
    && var size, used := U32(data, 36), U32(data, 44);
       && 32 <= size && 32 + size <= |data| && U32(data, 8) == 32 + size && 32 <= used <= size && 1 <= U16(data, 16) && 32 + size < |data|
  }

  function Parse(data: bytes): Parsed<Tree> {
    if !HeadThere(data) then Bad
    else match ReadBlocks(data, U32(data, 8), U16(data, 16), map[])
      case Bad => Bad
      case Good(r) =>
        if r.1 != |data| then Bad
        else ReadKey(data, U32(data, 44), r.0, U32(data, 40), NONE, true, {}).0
  }

  method ParseBlock(data: bytes, at: nat, given: Records) returns (r: Parsed<Records>)
    requires BlockThere(data, at)
    ensures r == ReadRecords(data, at + 32, at + U32(data, at + 4), U16(data, at + 22), U16(data, at + 14), given)
  {
    hide LE, U32, U16, ReadRecord;
    var end, count, block := at + U32(data, at + 4), U16(data, at + 22), U16(data, at + 14);
    var cursor: nat, i, acc, ok := at + 32, 0, given, true;
    ghost var all := ReadRecords(data, at + 32, end, count, block, given);
    while i < count && ok
      invariant 0 <= i <= count && (ok ==> all == ReadRecords(data, cursor, end, count - i, block, acc)) && (!ok ==> all == Bad)
    {
      ok := false;
      if cursor + 20 <= end {
        var room, used := U32(data, cursor), U32(data, cursor + 8);
        if 20 <= room && cursor + room <= end && 20 <= used <= room {
          var record := ParseRecord(data[cursor..cursor + used]);
          if record.Good? {
            var identity := FullIdentity(U32(data, cursor + 4), block);
            if identity !in acc {
              acc, ok := acc[identity := record.value], true;
            } else if Blank(record.value) {
              ok := true;
            } else if Blank(acc[identity]) {
              acc, ok := acc[identity := record.value], true;
            }
            cursor := cursor + room;
          }
        }
      }
      i := i + 1;
    }
    r := if ok then Good(acc) else Bad;
  }

  /** Parses a whole file. */
  method ParseCreg(data: bytes) returns (r: Parsed<Tree>)
    ensures r == Parse(data)
  {
    hide LE, U32, U16, ReadRecords, ReadKey;
    r := Bad;
    if HeadThere(data) {
      var at, count, i, acc, ok := U32(data, 8), U16(data, 16), 0, map[], true;
      ghost var all := ReadBlocks(data, at, count, map[]);
      while i < count && ok
        invariant 0 <= i <= count && (ok ==> all == ReadBlocks(data, at, count - i, acc)) && (!ok ==> all == Bad)
      {
        if BlockThere(data, at) {
          var block := ParseBlock(data, at, acc);
          match block {
            case Bad => ok := false;
            case Good(more) => acc, at := more, at + U32(data, at + 4);
          }
        } else {
          ok := false;
        }
        i := i + 1;
      }
      if ok && at == |data| {
        r := ReadKey(data, U32(data, 44), acc, U32(data, 40), NONE, true, {}).0;
      }
    }
  }
}
