/** The readers of src/parser.rs, step by step: a cursor over the bytes of
    the file, the two line readers, and the two record loops. Each reader is
    proved to consume and return exactly what the functions of module Format
    say. */
module Parser {
  import opened Bytes
  import opened Text
  import opened Format

  /** A file opened for reading: its bytes and the read position. A failed
      read leaves the position at the end of the file. */
  class Reader {
    const data: seq<byte>
    var pos: nat

    ghost predicate Valid()
      reads this
    {
      pos <= |data|
    }

    /** The bytes not read yet. */
    function Remaining(): seq<byte>
      reads this
      requires Valid()
    {
      data[pos..]
    }

    constructor (data: seq<byte>)
      ensures Valid() && this.data == data && Remaining() == data
    {
      this.data := data;
      pos := 0;
    }

    /** `read_exact` into an n-byte buffer: all n bytes, or the end of the file. */
    method ReadExact(n: nat) returns (r: Option<seq<byte>>)
      requires Valid()
      modifies this
      ensures Valid()
      ensures old(pos) + n <= |data| ==> r == Some(data[old(pos)..old(pos) + n]) && pos == old(pos) + n
      ensures old(pos) + n > |data| ==> r.None? && pos == |data|
    {
      if pos + n <= |data| {
        r := Some(data[pos..pos + n]);
        pos := pos + n;
      } else {
        r := None;
        pos := |data|;
      }
    }

    /** `read_u8`. */
    method ReadU8() returns (r: Option<byte>)
      requires Valid()
      modifies this
      ensures Valid()
      ensures old(pos) < |data| ==> r == Some(data[old(pos)]) && pos == old(pos) + 1
      ensures old(pos) >= |data| ==> r.None? && pos == |data|
      ensures |old(Remaining())| >= 1 ==>
        r == Some(old(Remaining())[0]) && Remaining() == old(Remaining())[1..]
      ensures |old(Remaining())| < 1 ==> r.None? && Remaining() == []
    {
      var bs := ReadExact(1);
      r := if bs.None? then None else Some(bs.value[0]);
      assert data[pos..] == data[old(pos)..][pos - old(pos)..];
    }

    /** `read_u16::<LittleEndian>`. */
    method ReadU16Le() returns (r: Option<u16>)
      requires Valid()
      modifies this
      ensures Valid()
      ensures old(pos) + 2 <= |data| ==>
        r == Some(U16Le(data[old(pos)..old(pos) + 2])) && pos == old(pos) + 2
      ensures old(pos) + 2 > |data| ==> r.None? && pos == |data|
    {
      var bs := ReadExact(2);
      r := if bs.None? then None else Some(U16Le(bs.value));
    }

    /** `read_i32::<LittleEndian>`. */
    method ReadI32Le() returns (r: Option<i32>)
      requires Valid()
      modifies this
      ensures Valid()
      ensures old(pos) + 4 <= |data| ==>
        r == Some(I32Le(data[old(pos)..old(pos) + 4])) && pos == old(pos) + 4
      ensures old(pos) + 4 > |data| ==> r.None? && pos == |data|
    {
      var bs := ReadExact(4);
      r := if bs.None? then None else Some(I32Le(bs.value));
    }

    /** `read_i64::<LittleEndian>`. */
    method ReadI64Le() returns (r: Option<i64>)
      requires Valid()
      modifies this
      ensures Valid()
      ensures old(pos) + 8 <= |data| ==>
        r == Some(I64Le(data[old(pos)..old(pos) + 8])) && pos == old(pos) + 8
      ensures old(pos) + 8 > |data| ==> r.None? && pos == |data|
    {
      var bs := ReadExact(8);
      r := if bs.None? then None else Some(I64Le(bs.value));
    }
  }

  /** `read_header`: `BufRead::read_line` reads the first line, up to and
      including its `\n`, or to the end of the file. The `trim_end` and the
      comparison are HeaderMatches, applied by the callers. */
  method ReadHeader(r: Reader) returns (line: seq<byte>)
    requires r.Valid()
    modifies r
    ensures r.Valid()
    ensures line == HeaderLine(old(r.Remaining()))
    ensures r.Remaining() == old(r.Remaining())[|line|..]
  {
    ghost var start := r.Remaining();
    line := [];
    while true
      invariant r.Valid()
      invariant start == line + r.Remaining()
      invariant LF !in line
      decreases |r.Remaining()|
    {
      ghost var before := r.Remaining();
      var b := r.ReadU8();
      if b.None? {
        HeaderLineWithoutLf(start, line);
        return;
      }
      HeaderStep(start, line, before, b.value, r.Remaining());
      line := line + [b.value];
      if b.value == LF {
        return;
      }
    }
  }

  /** One byte of the header loop: `\n` ends the header line, any other
      byte extends it. */
  lemma HeaderStep(start: seq<byte>, line: seq<byte>, before: seq<byte>, b: byte, after: seq<byte>)
    requires start == line + before && LF !in line
    requires before != [] && b == before[0] && after == before[1..]
    ensures b == LF ==> HeaderLine(start) == line + [b] && start[|line + [b]|..] == after
    ensures b != LF ==> start == (line + [b]) + after && LF !in line + [b]
  {
    assert before == [b] + after;
    if b == LF {
      HeaderLineOfLine(start, line, after);
    } else {
      assert start == (line + [b]) + after;
    }
  }

  lemma HeaderLineWithoutLf(start: seq<byte>, line: seq<byte>)
    requires start == line + [] && LF !in line
    ensures HeaderLine(start) == start && start[|start|..] == []
  {
    assert start == line;
  }

  lemma HeaderLineOfLine(start: seq<byte>, raw: seq<byte>, rest: seq<byte>)
    requires start == raw + ([LF] + rest) && LF !in raw
    ensures HeaderLine(start) == raw + [LF] && start[|raw| + 1..] == rest
  {
    assert start[..|raw|] == raw;
    FindLfAt(start, |raw|);
    assert start[..|raw| + 1] == raw + [LF];
    assert start[|raw| + 1..] == rest;
  }

  /** `read_line`: bytes up to the first `\n`, one at a time; `\r` bytes are
      skipped wherever they are, the others become chars of the same code.
      None when the file ends first. */
  method ReadLine(r: Reader) returns (name: Option<seq<char>>)
    requires r.Valid()
    modifies r
    ensures r.Valid()
    ensures match ReadName(old(r.Remaining()))
      case None => name.None? && r.Remaining() == []
      case Some((line, rest)) => name == Some(line) && r.Remaining() == rest
  {
    ghost var start := r.Remaining();
    ghost var raw: seq<byte> := [];
    var line: seq<char> := [];
    while true
      invariant r.Valid()
      invariant start == raw + r.Remaining()
      invariant LF !in raw
      invariant line == NameChars(raw)
      decreases |r.Remaining()|
    {
      ghost var before := r.Remaining();
      var b := r.ReadU8();
      if b.None? {
        NoLfLeft(start, raw);
        return None;
      }
      LineStep(start, raw, before, b.value, r.Remaining());
      if b.value == LF {
        return Some(line);
      }
      if b.value != CR {
        line := line + [Latin1(b.value)];
      }
      raw := raw + [b.value];
    }
  }

  /** What one byte read by `read_line` does to the line and to the input. */
  lemma LineStep(start: seq<byte>, raw: seq<byte>, before: seq<byte>, b: byte, after: seq<byte>)
    requires start == raw + before && LF !in raw
    requires before != [] && b == before[0] && after == before[1..]
    ensures b == LF ==> ReadName(start) == Some((NameChars(raw), after))
    ensures b != LF ==> start == (raw + [b]) + after && LF !in raw + [b]
    ensures NameChars(raw + [b]) == NameChars(raw) + (if b == CR then [] else [Latin1(b)])
  {
    assert before == [b] + after;
    assert start == raw + [b] + after;
    if b == LF {
      ReadNameOfLine(raw, after);
    }
    NameCharsSnoc(raw, b);
  }

  lemma NoLfLeft(start: seq<byte>, raw: seq<byte>)
    requires start == raw + [] && LF !in raw
    ensures ReadName(start).None?
  {
    assert start == raw;
  }

  /** One more byte of a name line, as `read_line` adds it. */
  lemma NameCharsSnoc(raw: seq<byte>, b: byte)
    ensures NameChars(raw + [b]) == NameChars(raw) + (if b == CR then [] else [Latin1(b)])
  {
    assert (raw + [b])[..|raw|] == raw;
  }

  /** The fixed tail of one userstats record (src/parser.rs lines 66-85): eight
      little-endian reads; the first that meets the end of the file fails
      the whole record. */
  method ReadPlayer(r: Reader, name: seq<char>) returns (p: Option<PlayerStats>)
    requires r.Valid()
    modifies r
    ensures r.Valid()
    ensures |old(r.Remaining())| >= PlayerTailSize ==>
      p == Some(DecodePlayer(name, old(r.Remaining())[..PlayerTailSize]))
      && r.Remaining() == old(r.Remaining())[PlayerTailSize..]
    ensures |old(r.Remaining())| < PlayerTailSize ==> p.None?
  {
    ghost var p0 := r.pos;
    var usertype := r.ReadU8();
    if usertype.None? { return None; }
    assert r.pos == p0 + 1 && usertype.value == r.data[p0];
    var userid := r.ReadI64Le();
    if userid.None? { return None; }
    var score := r.ReadI32Le();
    if score.None? { return None; }
    var kills := r.ReadI32Le();
    if kills.None? { return None; }
    var deaths := r.ReadI32Le();
    if deaths.None? { return None; }
    var assists := r.ReadI32Le();
    if assists.None? { return None; }
    var mvps := r.ReadI32Le();
    if mvps.None? { return None; }
    var time := r.ReadI32Le();
    if time.None? { return None; }
    p := Some(PlayerStats(name, usertype.value, userid.value, score.value, kills.value,
                          deaths.value, assists.value, mvps.value, time.value));
    TailSlices(r.data, p0);
    assert r.Remaining() == old(r.Remaining())[PlayerTailSize..];
  }

  /** The fields of a record tail that starts at position k of data. */
  lemma TailSlices(data: seq<byte>, k: nat)
    requires k + PlayerTailSize <= |data|
    ensures var tail := data[k..][..PlayerTailSize];
      tail[0] == data[k] && tail[1..9] == data[k + 1..k + 9] && tail[9..13] == data[k + 9..k + 13]
      && tail[13..17] == data[k + 13..k + 17] && tail[17..21] == data[k + 17..k + 21]
      && tail[21..25] == data[k + 21..k + 25] && tail[25..29] == data[k + 25..k + 29]
      && tail[29..33] == data[k + 29..k + 33]
  {
  }

  /** `parse_userstats` on a file holding the bytes data: check the header,
      then read records until the names run out or a blank name is read. */
  method ParseUserstats(data: seq<byte>) returns (result: Result<seq<PlayerStats>>)
    ensures result == Userstats(data)
  {
    var r := new Reader(data);
    var header := ReadHeader(r);
    UserstatsHeader(data);
    if !HeaderMatches(header, UserstatsMarker) {
      return Err(InvalidHeader);
    }
    PrependNothing(Players(r.Remaining()));
    var players: seq<PlayerStats> := [];
    while true
      invariant r.Valid()
      invariant Userstats(data) == Prepend(players, Players(r.Remaining()))
      decreases |r.Remaining()|
    {
      ghost var s := r.Remaining();
      var name := ReadLine(r);
      if name.None? || Trim(name.value) == [] {
        PlayersStop(s);
        assert players + [] == players;
        return Ok(players);
      }
      var p := ReadPlayer(r, name.value);
      if p.None? {
        PlayersCut(s);
        return Err(UnexpectedEof);
      }
      PlayersNext(s);
      PrependTwice(players, [p.value], Players(r.Remaining()));
      players := players + [p.value];
    }
  }

  lemma UserstatsHeader(data: seq<byte>)
    ensures var line := HeaderLine(data);
      if HeaderMatches(line, UserstatsMarker) then Userstats(data) == Players(data[|line|..])
      else Userstats(data) == Err(InvalidHeader)
  {
  }

  lemma StatsHeader(data: seq<byte>)
    ensures var line := HeaderLine(data);
      if HeaderMatches(line, StatsMarker) then Stats(data) == TrafficRecords(data[|line|..])
      else Stats(data) == Err(InvalidHeader)
  {
  }

  /** The loop stops quietly when no name line is left or the name is blank. */
  lemma PlayersStop(s: seq<byte>)
    requires ReadName(s).None? || Trim(ReadName(s).value.0) == []
    ensures Players(s) == Ok([])
  {
  }

  /** A record whose tail is cut short fails the whole file. */
  lemma PlayersCut(s: seq<byte>)
    requires ReadName(s).Some? && Trim(ReadName(s).value.0) != []
    requires |ReadName(s).value.1| < PlayerTailSize
    ensures Players(s) == Err(UnexpectedEof)
  {
  }

  /** A complete record is kept ahead of the records that follow it. */
  lemma PlayersNext(s: seq<byte>)
    requires ReadName(s).Some? && Trim(ReadName(s).value.0) != []
    requires |ReadName(s).value.1| >= PlayerTailSize
    ensures var (name, rest) := ReadName(s).value;
      Players(s) == Prepend([DecodePlayer(name, rest[..PlayerTailSize])], Players(rest[PlayerTailSize..]))
  {
  }

  /** The rest of one traffic record after its first byte (src/parser.rs
      lines 108-123); any read that meets the end of the file fails it. */
  method ReadTraffic(r: Reader, day: byte) returns (t: Option<TrafficStats>)
    requires r.Valid()
    modifies r
    ensures r.Valid()
    ensures |old(r.Remaining())| >= TrafficRecordSize - 1 ==>
      t == Some(DecodeTraffic([day] + old(r.Remaining())[..TrafficRecordSize - 1]))
      && r.Remaining() == old(r.Remaining())[TrafficRecordSize - 1..]
    ensures |old(r.Remaining())| < TrafficRecordSize - 1 ==> t.None?
  {
    ghost var p0 := r.pos;
    var month := r.ReadU8();
    if month.None? { return None; }
    var year := r.ReadU16Le();
    if year.None? { return None; }
    var hour := r.ReadU8();
    if hour.None? { return None; }
    var uploaded := r.ReadI64Le();
    if uploaded.None? { return None; }
    var downloaded := r.ReadI64Le();
    if downloaded.None? { return None; }
    var players := r.ReadU8();
    if players.None? { return None; }
    t := Some(TrafficStats(day, month.value, year.value, hour.value, uploaded.value,
                           downloaded.value, players.value));
    RecordSlices(r.data, p0, day);
    assert r.Remaining() == old(r.Remaining())[TrafficRecordSize - 1..];
  }

  /** The fields of a traffic record whose first byte is day and whose other
      21 bytes start at position k of data. */
  lemma RecordSlices(data: seq<byte>, k: nat, day: byte)
    requires k + TrafficRecordSize - 1 <= |data|
    ensures var rec := [day] + data[k..][..TrafficRecordSize - 1];
      rec[0] == day && rec[1] == data[k] && rec[2..4] == data[k + 1..k + 3]
      && rec[4] == data[k + 3] && rec[5..13] == data[k + 4..k + 12]
      && rec[13..21] == data[k + 12..k + 20] && rec[21] == data[k + 20]
  {
  }

  /** `parse_stats` on a file holding the bytes data: check the header, then
      read 22-byte records until the file ends at a record boundary. */
  method ParseStats(data: seq<byte>) returns (result: Result<seq<TrafficStats>>)
    ensures result == Stats(data)
  {
    var r := new Reader(data);
    var header := ReadHeader(r);
    StatsHeader(data);
    if !HeaderMatches(header, StatsMarker) {
      return Err(InvalidHeader);
    }
    PrependNothing(TrafficRecords(r.Remaining()));
    var traffic: seq<TrafficStats> := [];
    while true
      invariant r.Valid()
      invariant Stats(data) == Prepend(traffic, TrafficRecords(r.Remaining()))
      decreases |r.Remaining()|
    {
      ghost var s := r.Remaining();
      var day := r.ReadU8();
      if day.None? {
        RecordsEnd(Stats(data), traffic, s);
        return Ok(traffic);
      }
      var t := ReadTraffic(r, day.value);
      if t.None? {
        RecordCut(Stats(data), traffic, s);
        return Err(UnexpectedEof);
      }
      RecordNext(Stats(data), traffic, s, day.value, t.value, r.Remaining());
      traffic := traffic + [t.value];
    }
  }

  /** A clean end of the file at a record boundary ends the `parse_stats` loop. */
  lemma RecordsEnd(total: Result<seq<TrafficStats>>, traffic: seq<TrafficStats>, s: seq<byte>)
    requires total == Prepend(traffic, TrafficRecords(s)) && s == []
    ensures total == Ok(traffic)
  {
    assert traffic + [] == traffic;
  }

  /** The end of the file inside a record fails the whole `parse_stats` call. */
  lemma RecordCut(total: Result<seq<TrafficStats>>, traffic: seq<TrafficStats>, s: seq<byte>)
    requires total == Prepend(traffic, TrafficRecords(s)) && 1 <= |s| < TrafficRecordSize
    ensures total == Err(UnexpectedEof)
  {
  }

  /** A whole record is pushed and the `parse_stats` loop goes on after it. */
  lemma RecordNext(total: Result<seq<TrafficStats>>, traffic: seq<TrafficStats>, s: seq<byte>,
                   day: byte, t: TrafficStats, after: seq<byte>)
    requires total == Prepend(traffic, TrafficRecords(s))
    requires |s| >= TrafficRecordSize && day == s[0]
    requires t == DecodeTraffic([day] + s[1..][..TrafficRecordSize - 1])
    requires after == s[1..][TrafficRecordSize - 1..]
    ensures total == Prepend(traffic + [t], TrafficRecords(after))
  {
    RecordStep(s);
    PrependTwice(traffic, [t], TrafficRecords(after));
  }

  /** One pass of the `parse_stats` loop once the day byte has been read. */
  lemma RecordStep(s: seq<byte>)
    requires |s| >= 1
    ensures |s| < TrafficRecordSize ==> TrafficRecords(s) == Err(UnexpectedEof)
    ensures |s| >= TrafficRecordSize ==>
      [s[0]] + s[1..][..TrafficRecordSize - 1] == s[..TrafficRecordSize]
      && s[1..][TrafficRecordSize - 1..] == s[TrafficRecordSize..]
      && TrafficRecords(s) == Prepend([DecodeTraffic(s[..TrafficRecordSize])], TrafficRecords(s[TrafficRecordSize..]))
  {
    if |s| >= TrafficRecordSize {
      assert [s[0]] + s[1..][..TrafficRecordSize - 1] == s[..TrafficRecordSize];
    }
  }
}
