/** The two stats file formats read by src/parser.rs, as pure functions of
    the whole file: what a file decodes to (Userstats, Stats) and how records
    are laid out in bytes (EncodePlayers, EncodeTraffic). The imperative
    readers in module Parser are proved to compute exactly these functions. */
module Format {
  import opened Bytes
  import opened Text
  import Utf8

  datatype Option<T> = None | Some(value: T)

  /** The two ways a decode fails: a wrong first line (`InvalidData`) or
      the end of the file inside a fixed-width field (`UnexpectedEof`). */
  datatype Error = InvalidHeader | UnexpectedEof

  datatype Result<T> = Ok(value: T) | Err(error: Error)

  /** One record of the `userstats` file. */
  datatype PlayerStats = PlayerStats(
    name: seq<char>,
    usertype: byte,
    userid: i64,
    score: i32,
    kills: i32,
    deaths: i32,
    assists: i32,
    mvps: i32,
    time: i32)

  /** One record of the `stats` (traffic) file. */
  datatype TrafficStats = TrafficStats(
    day: byte,
    month: byte,
    year: u16,
    hour: byte,
    uploadedBytes: i64,
    downloadedBytes: i64,
    players: byte)

  const LF: byte := 10
  const CR: byte := 13

  /** usertype (1) + userid (8) + six i32 fields (24). */
  const PlayerTailSize: nat := 33
  /** day, month (2) + year (2) + hour (1) + two i64 (16) + players (1). */
  const TrafficRecordSize: nat := 22

  /** `userstats steam`, byte by byte. */
  const UserstatsMarker: seq<byte> :=
    [0x75, 0x73, 0x65, 0x72, 0x73, 0x74, 0x61, 0x74, 0x73, 0x20, 0x73, 0x74, 0x65, 0x61, 0x6d]
  /** `stats alpha`, byte by byte. */
  const StatsMarker: seq<byte> :=
    [0x73, 0x74, 0x61, 0x74, 0x73, 0x20, 0x61, 0x6c, 0x70, 0x68, 0x61]

  // ---------------------------------------------------------------- lines

  /** Index of the first `\n`, if there is one. */
  function FindLf(s: seq<byte>): (r: Option<nat>)
    ensures r.Some? ==> r.value < |s| && s[r.value] == LF && LF !in s[..r.value]
    ensures r.None? <==> LF !in s
  {
    if s == [] then None
    else if s[0] == LF then Some(0)
    else
      match FindLf(s[1..])
      case None =>
        assert s == [s[0]] + s[1..];
        None
      case Some(k) =>
        assert s[..k + 1] == [s[0]] + s[1..][..k];
        Some(k + 1)
  }

  lemma FindLfAt(s: seq<byte>, k: nat)
    requires k < |s| && s[k] == LF && LF !in s[..k]
    ensures FindLf(s) == Some(k)
  {
    assert LF in s;
  }

  /** The first line as `BufRead::read_line` returns it: up to and including
      the first `\n`, or the whole input when there is none. */
  function HeaderLine(data: seq<byte>): (line: seq<byte>)
    ensures |line| <= |data| && line == data[..|line|]
    ensures forall k | 0 <= k < |line| - 1 :: line[k] != LF
    ensures line == data || (line != [] && line[|line| - 1] == LF)
  {
    match FindLf(data)
    case None => data
    case Some(k) =>
      assert forall j | 0 <= j < k :: data[..k][j] == data[j];
      data[..k + 1]
  }

  /** The check `line.trim_end() == marker` on a line that must also be valid
      UTF-8: the marker followed by whitespace only. */
  predicate HeaderMatches(line: seq<byte>, marker: seq<byte>): (r: bool)
    ensures line == marker ==> r
    ensures line == marker + [LF] ==> r
    ensures line == marker + [CR, LF] ==> r
    ensures |line| < |marker| ==> !r
  {
    assert [LF][1..] == [] && [CR, LF][1..] == [LF];
    assert Utf8.WhitespaceBytes([LF]) && Utf8.WhitespaceBytes([CR, LF]);
    assert line == marker + [LF] ==> line[|marker|..] == [LF];
    assert line == marker + [CR, LF] ==> line[|marker|..] == [CR, LF];
    |line| >= |marker| && line[..|marker|] == marker && Utf8.WhitespaceBytes(line[|marker|..])
  }

  /** A header line matches exactly when it is the marker followed by the
      UTF-8 encoding of a run of whitespace characters. */
  lemma HeaderMatchesIff(line: seq<byte>, marker: seq<byte>)
    ensures HeaderMatches(line, marker) <==>
      exists t :: AllWhitespace(t) && line == marker + Utf8.EncodeString(t)
  {
    if |line| >= |marker| && line[..|marker|] == marker {
      Utf8.WhitespaceBytesIff(line[|marker|..]);
      assert line == marker + line[|marker|..];
      forall t | AllWhitespace(t) && line == marker + Utf8.EncodeString(t)
        ensures Utf8.WhitespaceBytes(line[|marker|..])
      {
        assert line[|marker|..] == Utf8.EncodeString(t);
      }
    } else {
      forall t ensures line != marker + Utf8.EncodeString(t) {
      }
    }
  }

  // ---------------------------------------------------------------- names

  predicate IsLatin1(s: seq<char>)
  {
    forall k | 0 <= k < |s| :: s[k] as int < 0x100
  }

  /** A byte as the char with the same code (`byte as char`). */
  function Latin1(b: byte): (c: char)
    ensures c as int == b as int
  {
    b as int as char
  }

  /** The bytes of a name whose chars all have codes below 256. */
  function NameBytes(name: seq<char>): (r: seq<byte>)
    requires IsLatin1(name)
    ensures |r| == |name| && forall k | 0 <= k < |r| :: r[k] as int == name[k] as int
  {
    if name == [] then [] else NameBytes(name[..|name| - 1]) + [name[|name| - 1] as int as byte]
  }

  lemma NameBytesInjective(x: seq<char>, y: seq<char>)
    requires IsLatin1(x) && IsLatin1(y) && NameBytes(x) == NameBytes(y)
    ensures x == y
  {
    assert forall k | 0 <= k < |x| :: x[k] as int == NameBytes(x)[k] as int == y[k] as int;
  }

  lemma NameBytesAppend(x: seq<char>, y: seq<char>)
    requires IsLatin1(x) && IsLatin1(y)
    ensures IsLatin1(x + y) && NameBytes(x + y) == NameBytes(x) + NameBytes(y)
  {
    var l, r := NameBytes(x + y), NameBytes(x) + NameBytes(y);
    forall k | 0 <= k < |l| ensures l[k] == r[k] {
      if k < |x| { assert r[k] == NameBytes(x)[k]; } else { assert r[k] == NameBytes(y)[k - |x|]; }
    }
  }

  lemma NoCrInName(name: seq<char>, bs: seq<byte>)
    requires IsLatin1(name) && NameBytes(name) == bs && CR !in bs
    ensures '\r' !in name
  {
    forall k | 0 <= k < |name| ensures name[k] != '\r' {
      assert bs[k] as int == name[k] as int;
    }
  }

  /** The bytes of raw other than `\r`, in order. */
  function DropCr(raw: seq<byte>): (r: seq<byte>)
    ensures CR !in r && |r| <= |raw|
    ensures CR !in raw ==> r == raw
  {
    if raw == [] then []
    else
      var init := raw[..|raw| - 1];
      assert raw == init + [raw[|raw| - 1]];
      DropCr(init) + (if raw[|raw| - 1] == CR then [] else [raw[|raw| - 1]])
  }

  /** The name `read_line` builds from the raw bytes of a line: every `\r`
      dropped, every other byte turned into the char with its code. */
  function NameChars(raw: seq<byte>): (r: seq<char>)
    ensures IsLatin1(r) && NameBytes(r) == DropCr(raw)
    ensures '\r' !in r
  {
    if raw == [] then []
    else
      var init := raw[..|raw| - 1];
      var b := raw[|raw| - 1];
      var tail := if b == CR then [] else [Latin1(b)];
      var r := NameChars(init) + tail;
      NameBytesAppend(NameChars(init), tail);
      assert NameBytes(tail) == (if b == CR then [] else [b]);
      NoCrInName(r, DropCr(raw));
      r
  }

  /** The name line `read_line` consumes from s: everything up to the first
      `\n`, which is consumed and not kept. None when there is no `\n` left:
      the read hits the end of the file. */
  function ReadName(s: seq<byte>): (r: Option<(seq<char>, seq<byte>)>)
    ensures r.None? <==> LF !in s
    ensures r.Some? ==>
      var k := |s| - |r.value.1| - 1;
      0 <= k < |s| && s[k] == LF && LF !in s[..k] && r.value.1 == s[k + 1..]
      && r.value.0 == NameChars(s[..k])
  {
    match FindLf(s)
    case None => None
    case Some(k) => Some((NameChars(s[..k]), s[k + 1..]))
  }

  /** A name the encoder can write and the decoder gives back unchanged:
      byte-sized chars, no line break, not blank. */
  predicate WellFormedName(name: seq<char>)
  {
    IsLatin1(name) && '\n' !in name && '\r' !in name && Trim(name) != []
  }

  lemma ReadNameOfLine(raw: seq<byte>, rest: seq<byte>)
    requires LF !in raw
    ensures ReadName(raw + [LF] + rest) == Some((NameChars(raw), rest))
  {
    var s := raw + [LF] + rest;
    assert s[..|raw|] == raw;
    FindLfAt(s, |raw|);
    assert s[|raw| + 1..] == rest;
  }

  lemma ReadNameOfEncoded(name: seq<char>, rest: seq<byte>)
    requires IsLatin1(name) && '\n' !in name && '\r' !in name
    ensures ReadName(NameBytes(name) + [LF] + rest) == Some((name, rest))
  {
    var raw := NameBytes(name);
    var s := raw + [LF] + rest;
    assert LF !in raw by {
      forall k | 0 <= k < |raw| ensures raw[k] != LF {
        assert raw[k] as int == name[k] as int;
        assert name[k] != '\n';
      }
    }
    assert s[..|raw|] == raw;
    FindLfAt(s, |raw|);
    assert CR !in raw by {
      forall k | 0 <= k < |raw| ensures raw[k] != CR {
        assert raw[k] as int == name[k] as int;
        assert name[k] != '\r';
      }
    }
    NameBytesInjective(NameChars(raw), name);
    assert s[|raw| + 1..] == rest;
  }

  // ---------------------------------------------------------------- userstats

  function Prepend<T>(xs: seq<T>, r: Result<seq<T>>): (q: Result<seq<T>>)
    ensures q.Ok? <==> r.Ok?
    ensures q.Ok? ==> q.value == xs + r.value
    ensures q.Err? ==> q.error == r.error
  {
    match r
    case Ok(ys) => Ok(xs + ys)
    case Err(e) => Err(e)
  }

  lemma PrependNothing<T>(r: Result<seq<T>>)
    ensures Prepend([], r) == r
  {
    if r.Ok? {
      assert [] + r.value == r.value;
    }
  }

  lemma PrependTwice<T>(xs: seq<T>, ys: seq<T>, r: Result<seq<T>>)
    ensures Prepend(xs, Prepend(ys, r)) == Prepend(xs + ys, r)
  {
    if r.Ok? {
      assert xs + (ys + r.value) == xs + ys + r.value;
    }
  }

  /** The record built from a name and its 33-byte little-endian tail. */
  function DecodePlayer(name: seq<char>, tail: seq<byte>): (p: PlayerStats)
    requires |tail| == PlayerTailSize
    ensures p.name == name && p.usertype == tail[0]
  {
    PlayerStats(name, tail[0], I64Le(tail[1..9]),
      I32Le(tail[9..13]), I32Le(tail[13..17]), I32Le(tail[17..21]),
      I32Le(tail[21..25]), I32Le(tail[25..29]), I32Le(tail[29..33]))
  }

  /** The 33 bytes that follow a record's name line. */
  function PlayerTail(p: PlayerStats): (t: seq<byte>)
    ensures |t| == PlayerTailSize
    ensures DecodePlayer(p.name, t) == p
  {
    TailParts([p.usertype], I64Bytes(p.userid), I32Bytes(p.score), I32Bytes(p.kills),
      I32Bytes(p.deaths), I32Bytes(p.assists), I32Bytes(p.mvps), I32Bytes(p.time));
    [p.usertype] + I64Bytes(p.userid) + I32Bytes(p.score) + I32Bytes(p.kills)
      + I32Bytes(p.deaths) + I32Bytes(p.assists) + I32Bytes(p.mvps) + I32Bytes(p.time)
  }

  /** Where the eight fields of a record tail sit in it. */
  lemma TailParts(u: seq<byte>, id: seq<byte>, a: seq<byte>, b: seq<byte>,
                  c: seq<byte>, d: seq<byte>, e: seq<byte>, f: seq<byte>)
    requires |u| == 1 && |id| == 8 && |a| == 4 && |b| == 4 && |c| == 4 && |d| == 4 && |e| == 4 && |f| == 4
    ensures var t := u + id + a + b + c + d + e + f;
      |t| == PlayerTailSize && t[0] == u[0] && t[1..9] == id && t[9..13] == a && t[13..17] == b
      && t[17..21] == c && t[21..25] == d && t[25..29] == e && t[29..33] == f
  {
  }

  /** Every 33-byte tail is the encoding of the record it decodes to. */
  lemma PlayerTailOfDecoded(name: seq<char>, tail: seq<byte>)
    requires |tail| == PlayerTailSize
    ensures PlayerTail(DecodePlayer(name, tail)) == tail
  {
    I64BytesOf(tail[1..9]);
    I32BytesOf(tail[9..13]);
    I32BytesOf(tail[13..17]);
    I32BytesOf(tail[17..21]);
    I32BytesOf(tail[21..25]);
    I32BytesOf(tail[25..29]);
    I32BytesOf(tail[29..33]);
    assert tail == [tail[0]] + tail[1..9] + tail[9..13] + tail[13..17] + tail[17..21]
      + tail[21..25] + tail[25..29] + tail[29..33];
  }

  /** A name the record loop keeps: not blank, no `\r`, byte-sized chars. */
  predicate KeptName(name: seq<char>)
  {
    Trim(name) != [] && '\r' !in name && IsLatin1(name)
  }

  lemma ConsPlayer(p: PlayerStats, more: Result<seq<PlayerStats>>, n: nat)
    requires KeptName(p.name)
    requires more.Ok? ==> |more.value| * (PlayerTailSize + 2) <= n
    requires more.Ok? ==> forall i | 0 <= i < |more.value| :: KeptName(more.value[i].name)
    ensures var r := Prepend([p], more);
      r.Ok? ==> (|r.value| * (PlayerTailSize + 2) <= n + PlayerTailSize + 2
                 && forall i | 0 <= i < |r.value| :: KeptName(r.value[i].name))
  {
    if more.Ok? {
      var r := [p] + more.value;
      assert Prepend([p], more) == Ok(r);
      assert |r| * (PlayerTailSize + 2) <= n + PlayerTailSize + 2 by {
        assert |r| == |more.value| + 1;
        assert |r| * (PlayerTailSize + 2) == |more.value| * (PlayerTailSize + 2) + (PlayerTailSize + 2);
      }
      assert forall i | 0 <= i < |r| :: KeptName(r[i].name) by {
        forall i | 0 <= i < |r| ensures KeptName(r[i].name) {
          if i > 0 { assert r[i] == more.value[i - 1]; }
        }
      }
    }
  }

  /** The record loop of `parse_userstats` over the bytes after the header:
      stop quietly when no name line is left or the name is blank, fail when
      the tail of a record is cut short, otherwise keep the record and go on. */
  function Players(s: seq<byte>): (r: Result<seq<PlayerStats>>)
    ensures r.Err? ==> r.error == UnexpectedEof
    decreases |s|
  {
    match ReadName(s)
    case None => Ok([])
    case Some((name, rest)) =>
      if Trim(name) == [] then Ok([])
      else if |rest| < PlayerTailSize then Err(UnexpectedEof)
      else Prepend([DecodePlayer(name, rest[..PlayerTailSize])], Players(rest[PlayerTailSize..]))
  }

  /** What the loop returns never holds a blank name or a `\r`, and each
      record stands for at least 35 bytes (a name byte, `\n`, the tail). */
  lemma {:induction false} PlayersFacts(s: seq<byte>)
    ensures var r := Players(s);
      r.Ok? ==> (|r.value| * (PlayerTailSize + 2) <= |s|
                 && forall i | 0 <= i < |r.value| :: KeptName(r.value[i].name))
    decreases |s|
  {
    match ReadName(s)
    case None =>
    case Some((name, rest)) =>
      if Trim(name) != [] && |rest| >= PlayerTailSize {
        var p := DecodePlayer(name, rest[..PlayerTailSize]);
        PlayersKeep(s, name, rest);
        PlayersFacts(rest[PlayerTailSize..]);
        assert |name| > 0;
        ConsPlayer(p, Players(rest[PlayerTailSize..]), |rest| - PlayerTailSize);
      }
  }

  /** What `parse_userstats` returns for a file holding the bytes data. */
  function Userstats(data: seq<byte>): (r: Result<seq<PlayerStats>>)
    ensures r == Err(InvalidHeader) <==> !HeaderMatches(HeaderLine(data), UserstatsMarker)
  {
    var line := HeaderLine(data);
    if HeaderMatches(line, UserstatsMarker) then Players(data[|line|..]) else Err(InvalidHeader)
  }

  // ---------------------------------------------------------------- encoding

  predicate Encodable(ps: seq<PlayerStats>)
  {
    forall i | 0 <= i < |ps| :: WellFormedName(ps[i].name)
  }

  /** One record as the game server writes it: name, `\n`, then the tail. */
  function EncodePlayer(p: PlayerStats): (bs: seq<byte>)
    requires WellFormedName(p.name)
    ensures |bs| == |p.name| + 1 + PlayerTailSize
  {
    NameBytes(p.name) + [LF] + PlayerTail(p)
  }

  function EncodePlayers(ps: seq<PlayerStats>): seq<byte>
    requires Encodable(ps)
  {
    if ps == [] then [] else EncodePlayer(ps[0]) + EncodePlayers(ps[1..])
  }

  /** Decoding one encoded record gives it back and leaves the rest to the loop. */
  lemma PlayersAfterRecord(p: PlayerStats, rest: seq<byte>)
    requires WellFormedName(p.name)
    ensures Players(EncodePlayer(p) + rest) == Prepend([p], Players(rest))
  {
    var tail := PlayerTail(p) + rest;
    assert EncodePlayer(p) + rest == NameBytes(p.name) + [LF] + tail by {
      AppendAssoc(NameBytes(p.name) + [LF], PlayerTail(p), rest);
    }
    ReadNameOfEncoded(p.name, tail);
    assert tail[..PlayerTailSize] == PlayerTail(p) && tail[PlayerTailSize..] == rest;
    PlayersKeep(NameBytes(p.name) + [LF] + tail, p.name, tail);
  }

  /** A name line with a non-blank name and a whole tail after it: the
      record is kept and the loop goes on after the tail. */
  lemma PlayersKeep(s: seq<byte>, name: seq<char>, rest: seq<byte>)
    requires ReadName(s) == Some((name, rest)) && Trim(name) != [] && |rest| >= PlayerTailSize
    ensures Players(s)
      == Prepend([DecodePlayer(name, rest[..PlayerTailSize])], Players(rest[PlayerTailSize..]))
  {
  }

  /** Encoded records are decoded in file order, whatever follows them. */
  lemma {:induction false} PlayersAfterRecords(ps: seq<PlayerStats>, rest: seq<byte>)
    requires Encodable(ps)
    ensures Players(EncodePlayers(ps) + rest) == Prepend(ps, Players(rest))
  {
    if ps != [] {
      EncodableTail(ps);
      var later := EncodePlayers(ps[1..]) + rest;
      EncodePlayersCons(ps, rest);
      PlayersAfterRecord(ps[0], later);
      PlayersAfterRecords(ps[1..], rest);
      PrependTwice([ps[0]], ps[1..], Players(rest));
      SplitFirst(ps);
    } else {
      assert EncodePlayers(ps) + rest == rest;
      PrependNothing(Players(rest));
    }
  }

  lemma AppendAssoc<T>(a: seq<T>, b: seq<T>, c: seq<T>)
    ensures a + (b + c) == (a + b) + c
  {
  }

  lemma SplitFirst<T>(s: seq<T>)
    requires s != []
    ensures [s[0]] + s[1..] == s
  {
  }

  lemma EncodableTail(ps: seq<PlayerStats>)
    requires Encodable(ps) && ps != []
    ensures WellFormedName(ps[0].name) && Encodable(ps[1..])
  {
    forall i | 0 <= i < |ps| - 1 ensures WellFormedName(ps[1..][i].name) {
      assert ps[1..][i] == ps[i + 1];
    }
  }

  lemma EncodePlayersCons(ps: seq<PlayerStats>, rest: seq<byte>)
    requires Encodable(ps) && ps != [] && Encodable(ps[1..])
    ensures EncodePlayers(ps) + rest == EncodePlayer(ps[0]) + (EncodePlayers(ps[1..]) + rest)
  {
    AppendAssoc(EncodePlayer(ps[0]), EncodePlayers(ps[1..]), rest);
  }

  /** After the plain header line, the records are decoded from the next byte. */
  lemma UserstatsAfterHeader(body: seq<byte>)
    ensures Userstats(UserstatsMarker + [LF] + body) == Players(body)
  {
    PlainHeader(UserstatsMarker, body);
  }

  /** Round trip: the header line followed by the encoded records decodes to
      exactly the records written, in file order. */
  lemma UserstatsRoundTrip(ps: seq<PlayerStats>)
    requires Encodable(ps)
    ensures Userstats(UserstatsMarker + [LF] + EncodePlayers(ps)) == Ok(ps)
  {
    UserstatsAfterHeader(EncodePlayers(ps));
    EofInName(ps, []);
    assert EncodePlayers(ps) + [] == EncodePlayers(ps);
  }

  /** The same with an empty name line after the records: whatever follows it
      is ignored. */
  lemma UserstatsRoundTripSentinel(ps: seq<PlayerStats>, junk: seq<byte>)
    requires Encodable(ps)
    ensures Userstats(UserstatsMarker + [LF] + EncodePlayers(ps) + [LF] + junk) == Ok(ps)
  {
    var e := EncodePlayers(ps);
    assert Players(e + [LF] + junk) == Ok(ps) by {
      SentinelStops(ps, [], junk);
      assert e + [] == e;
    }
    UserstatsAfterLine(UserstatsMarker + [LF], e, junk);
  }

  lemma UserstatsAfterLine(head: seq<byte>, e: seq<byte>, junk: seq<byte>)
    requires head == UserstatsMarker + [LF]
    ensures Userstats(head + e + [LF] + junk) == Players(e + [LF] + junk)
  {
    Regroup(head, e, [LF], junk);
    UserstatsAfterHeader(e + [LF] + junk);
  }

  /** A header line made of the marker and trailing whitespace (spaces, `\r`,
      or any other whitespace in UTF-8) is accepted, and the records start
      right after its `\n`. */
  lemma HeaderAfterMarker(marker: seq<byte>, t: seq<char>, rest: seq<byte>)
    requires LF !in marker && AllWhitespace(t) && '\n' !in t
    ensures var data := marker + Utf8.EncodeString(t) + [LF] + rest;
      var line := HeaderLine(data);
      HeaderMatches(line, marker) && data[|line|..] == rest
  {
    var w := Utf8.EncodeString(t);
    NoLfInEncoding(t);
    HeaderLineAt(marker, w, rest);
    MarkerLineMatches(marker, t);
  }

  /** The first line of a text whose first `\n` follows `head + w`. */
  lemma HeaderLineAt(head: seq<byte>, w: seq<byte>, rest: seq<byte>)
    requires LF !in head && LF !in w
    ensures var data := head + w + [LF] + rest;
      HeaderLine(data) == head + w + [LF] && data[|head + w + [LF]|..] == rest
  {
    var data := head + w + [LF] + rest;
    var k := |head| + |w|;
    assert data[..k] == head + w;
    FindLfAt(data, k);
  }

  /** The marker, the encoded whitespace and the `\n` make a matching line. */
  lemma MarkerLineMatches(marker: seq<byte>, t: seq<char>)
    requires AllWhitespace(t) && '\n' !in t
    ensures HeaderMatches(marker + Utf8.EncodeString(t) + [LF], marker)
  {
    var w := Utf8.EncodeString(t);
    var line := marker + w + [LF];
    assert line[..|marker|] == marker;
    assert line[|marker|..] == w + [LF];
    Utf8.WhitespaceBytesOfString(t + ['\n']);
    EncodeAppend(t, '\n');
  }

  /** A header line that is the marker alone, and the bytes after it. */
  lemma PlainHeader(marker: seq<byte>, rest: seq<byte>)
    requires LF !in marker
    ensures var data := marker + [LF] + rest;
      var line := HeaderLine(data);
      HeaderMatches(line, marker) && data[|line|..] == rest
  {
    HeaderAfterMarker(marker, [], rest);
    assert Utf8.EncodeString([]) == [];
    assert marker + [] == marker;
  }

  lemma {:induction false} NoLfInEncoding(t: seq<char>)
    requires '\n' !in t
    ensures LF !in Utf8.EncodeString(t)
  {
    if t != [] {
      assert t == [t[0]] + t[1..];
      NoLfInEncoding(t[1..]);
      var e := Utf8.Encode(t[0]);
      assert forall k | 0 < k < |e| :: e[k] as int >= 0x80;
      assert e[0] != LF;
    }
  }

  lemma {:induction false} EncodeAppend(t: seq<char>, c: char)
    ensures Utf8.EncodeString(t + [c]) == Utf8.EncodeString(t) + Utf8.Encode(c)
  {
    if t != [] {
      assert (t + [c])[1..] == t[1..] + [c];
      EncodeAppend(t[1..], c);
    } else {
      assert Utf8.EncodeString([c])  == Utf8.Encode(c) + Utf8.EncodeString([]);
    }
  }

  /** A first line that does not start with the marker's first letter (a
      leading space, a capital letter, an empty file) is rejected. */
  lemma HeaderRejected(data: seq<byte>)
    requires data == [] || data[0] != UserstatsMarker[0]
    ensures Userstats(data) == Err(InvalidHeader)
  {
  }

  lemma Regroup<T>(a: seq<T>, b: seq<T>, c: seq<T>, d: seq<T>)
    ensures a + b + c + d == a + (b + c + d)
  {
  }

  /** Sentinel: a blank name line ends the loop with exactly the records before
      it; nothing after that line is looked at. */
  lemma SentinelStops(ps: seq<PlayerStats>, blank: seq<byte>, junk: seq<byte>)
    requires Encodable(ps) && LF !in blank && AllWhitespace(NameChars(blank))
    ensures Players(EncodePlayers(ps) + blank + [LF] + junk) == Ok(ps)
  {
    var end := blank + [LF] + junk;
    ReadNameOfLine(blank, junk);
    assert Players(end) == Ok([]);
    PlayersAfterRecords(ps, end);
    Regroup(EncodePlayers(ps), blank, [LF], junk);
    assert ps + [] == ps;
  }

  /** The end of the file inside a name line ends the loop without an error:
      the partial name is dropped and the earlier records are returned. */
  lemma EofInName(ps: seq<PlayerStats>, partial: seq<byte>)
    requires Encodable(ps) && LF !in partial
    ensures Players(EncodePlayers(ps) + partial) == Ok(ps)
  {
    assert Players(partial) == Ok([]);
    PlayersAfterRecords(ps, partial);
    assert ps + [] == ps;
  }

  /** A record whose tail is cut short fails the whole decode: neither the
      partial record nor the ones before it are returned. */
  lemma TruncatedTail(ps: seq<PlayerStats>, raw: seq<byte>, tail: seq<byte>)
    requires Encodable(ps) && LF !in raw && !AllWhitespace(NameChars(raw))
    requires |tail| < PlayerTailSize
    ensures Players(EncodePlayers(ps) + raw + [LF] + tail) == Err(UnexpectedEof)
  {
    var end := raw + [LF] + tail;
    ReadNameOfLine(raw, tail);
    assert Players(end) == Err(UnexpectedEof);
    PlayersAfterRecords(ps, end);
    Regroup(EncodePlayers(ps), raw, [LF], tail);
  }

  // ---------------------------------------------------------------- traffic

  /** The record built from 22 bytes: u8, u8, u16, u8, i64, i64, u8. */
  function DecodeTraffic(rec: seq<byte>): (t: TrafficStats)
    requires |rec| == TrafficRecordSize
    ensures t.day == rec[0] && t.month == rec[1] && t.hour == rec[4] && t.players == rec[21]
  {
    TrafficStats(rec[0], rec[1], U16Le(rec[2..4]), rec[4], I64Le(rec[5..13]), I64Le(rec[13..21]), rec[21])
  }

  function EncodeTraffic(t: TrafficStats): (rec: seq<byte>)
    ensures |rec| == TrafficRecordSize && DecodeTraffic(rec) == t
  {
    var rec := [t.day, t.month] + U16Bytes(t.year) + [t.hour]
      + I64Bytes(t.uploadedBytes) + I64Bytes(t.downloadedBytes) + [t.players];
    assert rec[2..4] == U16Bytes(t.year);
    assert rec[5..13] == I64Bytes(t.uploadedBytes);
    assert rec[13..21] == I64Bytes(t.downloadedBytes);
    rec
  }

  function EncodeTraffics(ts: seq<TrafficStats>): (bs: seq<byte>)
    ensures |bs| == |ts| * TrafficRecordSize
  {
    if ts == [] then [] else EncodeTraffic(ts[0]) + EncodeTraffics(ts[1..])
  }

  /** Every 22 bytes are the encoding of the record they decode to. */
  lemma TrafficOfDecoded(rec: seq<byte>)
    requires |rec| == TrafficRecordSize
    ensures EncodeTraffic(DecodeTraffic(rec)) == rec
  {
    U16BytesOf(rec[2..4]);
    I64BytesOf(rec[5..13]);
    I64BytesOf(rec[13..21]);
    assert rec == [rec[0], rec[1]] + rec[2..4] + [rec[4]] + rec[5..13] + rec[13..21] + [rec[21]];
  }

  /** The record loop of `parse_stats`: the end of the file at a record
      boundary ends it, the end of the file anywhere inside a record is an
      error. So it succeeds exactly when the length is a multiple of 22, with
      one record per 22 bytes. */
  function TrafficRecords(s: seq<byte>): (r: Result<seq<TrafficStats>>)
    ensures r.Ok? <==> |s| % TrafficRecordSize == 0
    ensures r.Ok? ==> |r.value| * TrafficRecordSize == |s|
    ensures r.Err? ==> r.error == UnexpectedEof
    decreases |s|
  {
    if s == [] then Ok([])
    else if |s| < TrafficRecordSize then Err(UnexpectedEof)
    else Prepend([DecodeTraffic(s[..TrafficRecordSize])], TrafficRecords(s[TrafficRecordSize..]))
  }

  /** What `parse_stats` returns for a file holding the bytes data. */
  function Stats(data: seq<byte>): (r: Result<seq<TrafficStats>>)
    ensures r == Err(InvalidHeader) <==> !HeaderMatches(HeaderLine(data), StatsMarker)
  {
    var line := HeaderLine(data);
    if HeaderMatches(line, StatsMarker) then TrafficRecords(data[|line|..]) else Err(InvalidHeader)
  }

  /** Traffic records are decoded back in file order, all seven fields equal. */
  lemma {:induction false} TrafficRoundTrip(ts: seq<TrafficStats>)
    ensures TrafficRecords(EncodeTraffics(ts)) == Ok(ts)
  {
    if ts != [] {
      var rec, more := EncodeTraffic(ts[0]), EncodeTraffics(ts[1..]);
      assert EncodeTraffics(ts) == rec + more;
      TrafficRecordsCons(rec, more);
      TrafficRoundTrip(ts[1..]);
      SplitFirst(ts);
    }
  }

  /** A whole record in front of more bytes is decoded first. */
  lemma TrafficRecordsCons(rec: seq<byte>, more: seq<byte>)
    requires |rec| == TrafficRecordSize
    ensures TrafficRecords(rec + more) == Prepend([DecodeTraffic(rec)], TrafficRecords(more))
  {
    var s := rec + more;
    assert s[..TrafficRecordSize] == rec && s[TrafficRecordSize..] == more;
  }

  /** Decoding loses nothing: the records read from a body re-encode to
      exactly that body. */
  lemma {:induction false} TrafficRecordsLossless(s: seq<byte>)
    ensures TrafficRecords(s).Ok? ==> EncodeTraffics(TrafficRecords(s).value) == s
    decreases |s|
  {
    if |s| >= TrafficRecordSize {
      var rec, more := s[..TrafficRecordSize], s[TrafficRecordSize..];
      TrafficRecordsLossless(more);
      if TrafficRecords(s).Ok? {
        var ts := TrafficRecords(s).value;
        assert ts == [DecodeTraffic(rec)] + TrafficRecords(more).value;
        assert ts[1..] == TrafficRecords(more).value;
        TrafficOfDecoded(rec);
        assert s == rec + more;
      }
    }
  }

  /** A whole `stats alpha` file round-trips. */
  lemma StatsRoundTrip(ts: seq<TrafficStats>)
    ensures Stats(StatsMarker + [LF] + EncodeTraffics(ts)) == Ok(ts)
  {
    StatsAfterHeader(EncodeTraffics(ts));
    TrafficRoundTrip(ts);
  }

  /** After the plain header line, the records are decoded from the next byte. */
  lemma StatsAfterHeader(body: seq<byte>)
    ensures Stats(StatsMarker + [LF] + body) == TrafficRecords(body)
  {
    PlainHeader(StatsMarker, body);
  }
}
