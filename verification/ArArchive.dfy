/** The ar container of a deb: headers whose length field is filled in afterwards, and what
    a reader of the format makes of the result. */
module ArArchive {
  import opened Strings
  import M = Manifest

  /** One character per byte. */
  type Bytes = string

  const MAGIC: Bytes := "!<arch>\n"
  const HEADER_LEN := 60

  /** A member is given as a whole, or written to the file piece by piece. */
  datatype ArMember =
    | Fixed(name: string, content: Bytes)
    | Streamed(name: string, pieces: seq<Bytes>)
  {
    function Content(): Bytes {
      if Fixed? then content else Concat(pieces)
    }
  }

  function Concat(pieces: seq<Bytes>): Bytes {
    if pieces == [] then [] else Concat(pieces[..|pieces| - 1]) + pieces[|pieces| - 1]
  }

  // ------------------------------------------------------------------------- numbers

  function Digit(d: nat): char
    requires d < 10
  {
    "0123456789"[d]
  }

  /** `%d` for a number that is not negative. */
  function Decimal(n: nat): (s: string)
    ensures s != []
  {
    if n < 10 then [Digit(n)] else Decimal(n / 10) + [Digit(n % 10)]
  }

  function DigitValue(c: char): Option<nat> {
    if '0' <= c <= '9' then Some(c as int - '0' as int) else None
  }

  function ParseDecimal(s: string): Option<nat> {
    if s == [] then None
    else
      var last := DigitValue(s[|s| - 1]);
      if last.None? then None
      else if |s| == 1 then last
      else
        var before := ParseDecimal(s[..|s| - 1]);
        if before.None? then None else Some(10 * before.value + last.value)
  }

  lemma {:induction false} DecimalRoundTrip(n: nat)
    ensures ParseDecimal(Decimal(n)) == Some(n)
    ensures Decimal(n)[|Decimal(n)| - 1] != ' '
  {
    if n < 10 {
    } else {
      DecimalRoundTrip(n / 10);
      assert Decimal(n)[..|Decimal(n)| - 1] == Decimal(n / 10);
    }
  }

  lemma DecimalExample()
    ensures Decimal(9368) == "9368"
  {
    assert Decimal(93) == "93" && Decimal(936) == "936";
  }

  // -------------------------------------------------------------------- padded columns

  function Spaces(n: nat): (s: string)
    ensures |s| == n && forall i :: 0 <= i < n ==> s[i] == ' '
  {
    if n == 0 then [] else Spaces(n - 1) + [' ']
  }

  /** `%-16s` and the like: filled up with spaces, but never cut. */
  function Padded(s: string, width: nat): (r: string)
    ensures |r| == if |s| < width then width else |s|
  {
    s + if |s| < width then Spaces(width - |s|) else []
  }

  /** A column without the spaces at its end. */
  function Stripped(s: string): string {
    if s != [] && s[|s| - 1] == ' ' then Stripped(s[..|s| - 1]) else s
  }

  lemma {:induction false} StripSpaces(s: string, n: nat)
    requires s == [] || s[|s| - 1] != ' '
    ensures Stripped(s + Spaces(n)) == s
  {
    if n == 0 {
      assert s + Spaces(0) == s;
    } else {
      StripSpaces(s, n - 1);
      assert (s + Spaces(n))[..|s| + n - 1] == s + Spaces(n - 1);
    }
  }

  lemma StripPadded(s: string, width: nat)
    requires s == [] || s[|s| - 1] != ' '
    ensures Stripped(Padded(s, width)) == s
  {
    StripSpaces(s, if |s| < width then width - |s| else 0);
    assert s + Spaces(0) == s;
  }

  // -------------------------------------------------------------------------- headers

  const OWNER_AND_MODE := "0     0     100644  "

  function Header(name: string, len: nat, mtime: nat): (h: Bytes)
    ensures |h| >= HEADER_LEN
  {
    Padded(name, 16) + Padded(Decimal(mtime), 12) + OWNER_AND_MODE + Padded(Decimal(len), 10) + "`\n"
  }

  predicate HeaderFits(name: string, len: nat, mtime: nat) {
    |name| <= 16 && |Decimal(mtime)| <= 12 && |Decimal(len)| <= 10
  }

  /** A header has its 60 bytes if and only if all that it states fits its column. */
  lemma HeaderLength(name: string, len: nat, mtime: nat)
    ensures |Header(name, len, mtime)| == HEADER_LEN <==> HeaderFits(name, len, mtime)
  {
  }

  // ------------------------------------------------------------------ writing to a file

  /** Writing at a position overwrites what is there and extends the file at the end. */
  function WriteAt(file: Bytes, pos: nat, data: Bytes): (r: Bytes)
    requires pos <= |file|
    ensures |r| >= pos + |data|
  {
    file[..pos] + data + if pos + |data| < |file| then file[pos + |data|..] else []
  }

  /** What seeking back and filling in the header leaves of a member: a header that is too long
      overwrites the beginning of the content. */
  function Patched(header: Bytes, content: Bytes): Bytes
    requires |header| >= HEADER_LEN
  {
    WriteAt(Spaces(HEADER_LEN) + content, 0, header)
  }

  /** Filling in the header afterwards comes to the same as writing it first, if and only if the
      header has its 60 bytes or there is nothing after it. */
  lemma PatchIsDirectIff(header: Bytes, content: Bytes)
    requires |header| >= HEADER_LEN
    ensures Patched(header, content) == header + content <==> |header| == HEADER_LEN || content == []
  {
    var patched := Patched(header, content);
    if |header| == HEADER_LEN || content == [] {
      assert patched == header + content;
    } else {
      assert |patched| != |header + content|;
    }
  }

  class BinaryFile {
    var bytes: Bytes
    var pos: nat

    ghost predicate Valid()
      reads this
    {
      pos <= |bytes|
    }

    /** `open(…, "wb")` */
    constructor ()
      ensures Valid() && bytes == [] && pos == 0
    {
      bytes, pos := [], 0;
    }

    method Write(data: Bytes)
      requires Valid()
      modifies this
      ensures Valid() && bytes == WriteAt(old(bytes), old(pos), data) && pos == old(pos) + |data|
    {
      bytes := WriteAt(bytes, pos, data);
      pos := pos + |data|;
    }

    method Seek(to: nat)
      requires Valid() && to <= |bytes|
      modifies this`pos
      ensures Valid() && pos == to
    {
      pos := to;
    }

    method WriteHeader(name: string, len: nat, mtime: nat)
      requires Valid()
      modifies this
      ensures Valid()
      ensures bytes == WriteAt(old(bytes), old(pos), Header(name, len, mtime))
        && pos == old(pos) + |Header(name, len, mtime)|
    {
      Write(Header(name, len, mtime));
    }

    method WritePieces(pieces: seq<Bytes>)
      requires Valid()
      modifies this
      ensures Valid() && bytes == WriteAt(old(bytes), old(pos), Concat(pieces)) && pos == old(pos) + |Concat(pieces)|
    {
      hide WriteAt, Concat;
      NoPieces(bytes, pos);
      for i := 0 to |pieces|
        invariant Valid() && bytes == WriteAt(old(bytes), old(pos), Concat(pieces[..i]))
          && pos == old(pos) + |Concat(pieces[..i])|
      {
        MorePieces(pieces[..i], pieces[i]);
        assert pieces[..i + 1] == pieces[..i] + [pieces[i]];
        WriteOn(old(bytes), old(pos), Concat(pieces[..i]), pieces[i]);
        Write(pieces[i]);
      }
      assert pieces[..|pieces|] == pieces;
    }

    /** The body of the loop over the members. */
    method WriteMember(m: ArMember, mtime: nat)
      requires Valid()
      modifies this
      ensures Valid() && Output(bytes, pos) == Added(Output(old(bytes), old(pos)), m, mtime)
    {
      match m
      case Fixed(name, content) =>
        WriteHeader(name, |content|, mtime);
        Write(content);
      case Streamed(name, pieces) =>
        var headerPos := pos;
        Write(Spaces(HEADER_LEN));
        WritePieces(pieces);
        var currentPos := pos;
        Seek(headerPos);
        var contentLen := currentPos - headerPos - HEADER_LEN;
        WriteHeader(name, contentLen, mtime);
        Seek(currentPos);
    }

    /** `generate_ar_archive`: it gives up at a name that is not ASCII. */
    method GenerateArArchive(mtime: nat, members: seq<ArMember>) returns (notAscii: Option<string>)
      requires bytes == [] && pos == 0
      modifies this
      ensures Valid()
      ensures notAscii.None? <==> AllAscii(members)
      ensures notAscii.None? ==> Output(bytes, pos) == AddedAll(Output(MAGIC, |MAGIC|), members, mtime)
      ensures notAscii.None? && AllFit(members, mtime) && NamesKept(members) ==>
        ReadArchive(bytes) == if AllEven(members) then Some(EntriesFor(members, mtime)) else None
    {
      hide WriteAt, Added, Header, AllFit, NamesKept, AllEven, ReadArchive, EntriesFor;
      StartFile();
      Write(MAGIC);
      for i := 0 to |members|
        invariant Valid() && AllAscii(members[..i])
        invariant Output(bytes, pos) == AddedAll(Output(MAGIC, |MAGIC|), members[..i], mtime)
      {
        assert members[..i + 1][..i] == members[..i];
        if !IsAscii(members[i].name) {
          return Some(members[i].name);
        }
        WriteMember(members[i], mtime);
      }
      assert members[..|members|] == members;
      notAscii := None;
      if AllFit(members, mtime) && NamesKept(members) {
        FileReadBackIffEven(members, mtime);
      }
    }
  }

  predicate IsAscii(s: string) {
    forall i :: 0 <= i < |s| ==> s[i] < 128 as char
  }

  ghost predicate AllAscii(members: seq<ArMember>) {
    forall i :: 0 <= i < |members| ==> IsAscii(members[i].name)
  }

  lemma StartFile()
    ensures WriteAt([], 0, MAGIC) == MAGIC
  {
  }

  lemma NoPieces(file: Bytes, pos: nat)
    requires pos <= |file|
    ensures Concat([]) == [] && WriteAt(file, pos, []) == file
  {
  }

  lemma MorePieces(pieces: seq<Bytes>, piece: Bytes)
    ensures Concat(pieces + [piece]) == Concat(pieces) + piece
  {
    assert (pieces + [piece])[..|pieces|] == pieces;
  }

  lemma WriteOn(file: Bytes, pos: nat, first: Bytes, second: Bytes)
    requires pos <= |file|
    ensures WriteAt(WriteAt(file, pos, first), pos + |first|, second) == WriteAt(file, pos, first + second)
  {
  }

  // -------------------------------------------------------------- the archive as a whole

  /** What has been written, and where the next byte goes. */
  datatype Output = Output(bytes: Bytes, pos: nat)

  function Added(o: Output, m: ArMember, mtime: nat): (r: Output)
    requires o.pos <= |o.bytes|
    ensures r.pos <= |r.bytes|
  {
    var header := Header(m.name, |m.Content()|, mtime);
    if m.Fixed? then
      Output(WriteAt(WriteAt(o.bytes, o.pos, header), o.pos + |header|, m.content), o.pos + |header| + |m.content|)
    else
      var streamed := WriteAt(WriteAt(o.bytes, o.pos, Spaces(HEADER_LEN)), o.pos + HEADER_LEN, m.Content());
      Output(WriteAt(streamed, o.pos, header), o.pos + HEADER_LEN + |m.Content()|)
  }

  function AddedAll(o: Output, members: seq<ArMember>, mtime: nat): (r: Output)
    requires o.pos <= |o.bytes|
    ensures r.pos <= |r.bytes|
  {
    if members == [] then o else Added(AddedAll(o, members[..|members| - 1], mtime), members[|members| - 1], mtime)
  }

  ghost predicate Fits(m: ArMember, mtime: nat) {
    HeaderFits(m.name, |m.Content()|, mtime)
  }

  ghost predicate AllFit(members: seq<ArMember>, mtime: nat) {
    forall i :: 0 <= i < |members| ==> Fits(members[i], mtime)
  }

  /** Every member with its final header in front. */
  function Archive(members: seq<ArMember>, mtime: nat): Bytes {
    if members == [] then []
    else
      var m := members[0];
      Header(m.name, |m.Content()|, mtime) + m.Content() + Archive(members[1..], mtime)
  }

  /** At the end of the file, a member is its header and its content, patched if it was streamed. */
  lemma AddedAtEnd(bytes: Bytes, m: ArMember, mtime: nat)
    ensures var header := Header(m.name, |m.Content()|, mtime);
      Added(Output(bytes, |bytes|), m, mtime).bytes ==
      bytes + if m.Fixed? then header + m.Content() else Patched(header, m.Content())
  {
    hide WriteAt, Header, Spaces;
    var header, content := Header(m.name, |m.Content()|, mtime), m.Content();
    if m.Fixed? {
      WriteOn(bytes, |bytes|, header, content);
      PatchAtEnd(bytes, [], header + content);
      OnNothing(header + content);
      assert bytes + [] == bytes;
    } else {
      var blank := Spaces(HEADER_LEN);
      WriteOn(bytes, |bytes|, blank, content);
      PatchAtEnd(bytes, [], blank + content);
      OnNothing(blank + content);
      assert bytes + [] == bytes;
      PatchAtEnd(bytes, blank + content, header);
    }
  }

  lemma OnNothing(data: Bytes)
    ensures WriteAt([], 0, data) == data
  {
  }

  lemma PatchAtEnd(start: Bytes, rest: Bytes, data: Bytes)
    ensures WriteAt(start + rest, |start|, data) == start + WriteAt(rest, 0, data)
  {
    assert (start + rest)[..|start|] == start;
    if |data| < |rest| {
      assert (start + rest)[|start| + |data|..] == rest[|data|..];
    }
  }

  /** Only a header that was left blank at first has to fit. */
  ghost predicate InPlace(m: ArMember, mtime: nat) {
    m.Streamed? ==> Fits(m, mtime)
  }

  ghost predicate AllInPlace(members: seq<ArMember>, mtime: nat) {
    forall i :: 0 <= i < |members| ==> InPlace(members[i], mtime)
  }

  function Direct(m: ArMember, mtime: nat): (r: Bytes)
    ensures |r| >= HEADER_LEN + |m.Content()|
  {
    Header(m.name, |m.Content()|, mtime) + m.Content()
  }

  lemma AddedInPlaceIff(bytes: Bytes, m: ArMember, mtime: nat)
    ensures var all, o := bytes + Direct(m, mtime), Added(Output(bytes, |bytes|), m, mtime);
      && (o.bytes == all <==> InPlace(m, mtime) || m.Content() == [])
      && (InPlace(m, mtime) <==> o == Output(all, |all|))
      && |o.bytes| <= |all|
  {
    hide WriteAt, Header;
    AddedAtEnd(bytes, m, mtime);
    HeaderLength(m.name, |m.Content()|, mtime);
    PatchIsDirectIff(Header(m.name, |m.Content()|, mtime), m.Content());
    AddedLength(Output(bytes, |bytes|), m, mtime);
    var o := Added(Output(bytes, |bytes|), m, mtime);
    assert (bytes + Direct(m, mtime))[|bytes|..] == Direct(m, mtime);
    assert m.Streamed? ==> o.bytes[|bytes|..] == Patched(Header(m.name, |m.Content()|, mtime), m.Content());
  }

  /** A member that starts too early ends too early. */
  lemma AddedLength(o: Output, m: ArMember, mtime: nat)
    requires o.pos <= |o.bytes|
    ensures var after, end := Added(o, m, mtime), o.pos + |Direct(m, mtime)|;
      && after.pos <= end && (InPlace(m, mtime) <==> after.pos == end)
      && |after.bytes| <= (if |o.bytes| <= end then end else |o.bytes|)
  {
    hide Header, Spaces;
    HeaderLength(m.name, |m.Content()|, mtime);
  }

  lemma {:induction false} ArchiveOfFront(members: seq<ArMember>, mtime: nat)
    requires members != []
    ensures Archive(members, mtime) == Archive(members[..|members| - 1], mtime) + Direct(members[|members| - 1], mtime)
  {
    hide Header, Direct;
    FirstDirect(members, mtime);
    if |members| > 1 {
      var front, last := members[..|members| - 1], members[|members| - 1];
      ArchiveOfFront(members[1..], mtime);
      assert members[1..][..|members| - 2] == front[1..];
      FirstDirect(front, mtime);
      assert Direct(members[0], mtime) + (Archive(front[1..], mtime) + Direct(last, mtime)) ==
             (Direct(members[0], mtime) + Archive(front[1..], mtime)) + Direct(last, mtime);
    }
  }

  lemma FirstDirect(members: seq<ArMember>, mtime: nat)
    requires members != []
    ensures Archive(members, mtime) == Direct(members[0], mtime) + Archive(members[1..], mtime)
  {
    hide Header;
  }

  lemma AllInPlaceFront(members: seq<ArMember>, mtime: nat)
    requires members != []
    ensures AllInPlace(members, mtime) <==>
      AllInPlace(members[..|members| - 1], mtime) && InPlace(members[|members| - 1], mtime)
  {
    hide InPlace;
  }

  /** The writer ends where writing the final headers up front ends, with the same bytes, if and only
      if every streamed member's header fits its columns. */
  lemma {:induction false} OutputIsDirectIff(bytes: Bytes, members: seq<ArMember>, mtime: nat)
    ensures var all, o := bytes + Archive(members, mtime), AddedAll(Output(bytes, |bytes|), members, mtime);
      && (o == Output(all, |all|) <==> AllInPlace(members, mtime))
      && (o.pos == |all| <==> AllInPlace(members, mtime)) && o.pos <= |all| && |o.bytes| <= |all|
  {
    hide Added, Direct, Header, InPlace, AllInPlace, Archive;
    if members == [] {
      NothingAdded(bytes, mtime);
    } else {
      var front, last := members[..|members| - 1], members[|members| - 1];
      var before := AddedAll(Output(bytes, |bytes|), front, mtime);
      OutputIsDirectIff(bytes, front, mtime);
      ArchiveOfFront(members, mtime);
      AllInPlaceFront(members, mtime);
      assert (bytes + Archive(front, mtime)) + Direct(last, mtime) == bytes + Archive(members, mtime);
      AddedLength(before, last, mtime);
      AddedInPlaceIff(bytes + Archive(front, mtime), last, mtime);
    }
  }

  lemma NothingAdded(bytes: Bytes, mtime: nat)
    ensures AddedAll(Output(bytes, |bytes|), [], mtime) == Output(bytes, |bytes|) && bytes + Archive([], mtime) == bytes
    ensures AllInPlace([], mtime)
  {
  }

  /** The file is what writing the final headers up front gives if and only if every streamed
      member's header fits, save for that of an empty last member, after which nothing is written. */
  lemma FileIsDirectIff(bytes: Bytes, members: seq<ArMember>, mtime: nat)
    ensures AddedAll(Output(bytes, |bytes|), members, mtime).bytes == bytes + Archive(members, mtime) <==>
      members == [] ||
      (var front, last := members[..|members| - 1], members[|members| - 1];
       AllInPlace(front, mtime) && (InPlace(last, mtime) || last.Content() == []))
  {
    hide Added, Direct, Header, InPlace, AllInPlace, Archive;
    if members == [] {
      NothingAdded(bytes, mtime);
    } else {
      var front, last := members[..|members| - 1], members[|members| - 1];
      var before := AddedAll(Output(bytes, |bytes|), front, mtime);
      OutputIsDirectIff(bytes, front, mtime);
      ArchiveOfFront(members, mtime);
      assert (bytes + Archive(front, mtime)) + Direct(last, mtime) == bytes + Archive(members, mtime);
      AddedLength(before, last, mtime);
      AddedInPlaceIff(bytes + Archive(front, mtime), last, mtime);
    }
  }

  lemma FirstOfArchive(members: seq<ArMember>, mtime: nat)
    requires members != [] && AllFit(members, mtime)
    ensures Fits(members[0], mtime) && AllFit(members[1..], mtime)
    ensures var m := members[0];
      Archive(members, mtime) == (Header(m.name, |m.Content()|, mtime) + m.Content()) + Archive(members[1..], mtime)
  {
    hide Header;
    forall i | 0 <= i < |members[1..]| ensures Fits(members[1..][i], mtime) {
      assert Fits(members[i + 1], mtime);
    }
  }

  // ------------------------------------------------------------------ reading it back

  datatype ArEntry = ArEntry(name: string, mtime: nat, owner: nat, group: nat, mode: nat, content: Bytes)

  /** A regular file that everybody may read and its owner, who is root, may write. */
  const FILE_MODE := 0x81A4

  function Prepended(e: ArEntry, rest: Option<seq<ArEntry>>): Option<seq<ArEntry>> {
    if rest.None? then None else Some([e] + rest.value)
  }

  /** What a numeric column says. */
  function Number(column: Bytes): Option<nat> {
    ParseDecimal(Stripped(column))
  }

  datatype ArHeader = ArHeader(name: string, mtime: nat, owner: nat, group: nat, mode: nat, len: nat)

  /** The fixed columns of a header. */
  function ReadHeader(h: Bytes): Option<ArHeader>
    requires |h| == HEADER_LEN
  {
    var mtime, owner, group := Number(h[16..28]), Number(h[28..34]), Number(h[34..40]);
    var mode, len := M.ParseOct(Stripped(h[40..48])), Number(h[48..58]);
    if mtime.None? || owner.None? || group.None? || mode.None? || len.None? || h[58..] != "`\n" then None
    else Some(ArHeader(Stripped(h[..16]), mtime.value, owner.value, group.value, mode.value, len.value))
  }

  /** A reader of the format of deb(5): after an odd length there is one byte of padding. */
  function ReadMembers(data: Bytes): Option<seq<ArEntry>>
    decreases |data|
  {
    if data == [] then Some([])
    else if |data| < HEADER_LEN then None
    else
      var header := ReadHeader(data[..HEADER_LEN]);
      if header.None? || |data| < HEADER_LEN + header.value.len + header.value.len % 2 then None
      else
        var h := header.value;
        Prepended(ArEntry(h.name, h.mtime, h.owner, h.group, h.mode, data[HEADER_LEN..HEADER_LEN + h.len]),
                  ReadMembers(data[HEADER_LEN + h.len + h.len % 2..]))
  }

  function ReadArchive(file: Bytes): Option<seq<ArEntry>> {
    if MAGIC <= file then ReadMembers(file[|MAGIC|..]) else None
  }

  /** Every member belongs to root. */
  function EntryOf(name: string, mtime: nat, content: Bytes): ArEntry {
    ArEntry(name, mtime, 0, 0, FILE_MODE, content)
  }

  function EntriesFor(members: seq<ArMember>, mtime: nat): seq<ArEntry> {
    if members == [] then []
    else [EntryOf(members[0].name, mtime, members[0].Content())] + EntriesFor(members[1..], mtime)
  }

  ghost predicate AllEven(members: seq<ArMember>) {
    forall i :: 0 <= i < |members| ==> |members[i].Content()| % 2 == 0
  }

  /** The spaces at the end of a name are lost. */
  ghost predicate NameKept(name: string) {
    name == "" || name[|name| - 1] != ' '
  }

  ghost predicate NamesKept(members: seq<ArMember>) {
    forall i :: 0 <= i < |members| ==> NameKept(members[i].name)
  }

  lemma Between(left: Bytes, mid: Bytes, right: Bytes)
    ensures (left + mid + right)[|left|..|left| + |mid|] == mid
  {
  }

  lemma Columns(name: string, len: nat, mtime: nat)
    requires HeaderFits(name, len, mtime)
    ensures var h := Header(name, len, mtime);
      && |h| == HEADER_LEN
      && h[..16] == Padded(name, 16) && h[16..28] == Padded(Decimal(mtime), 12) && h[28..48] == OWNER_AND_MODE
      && h[48..58] == Padded(Decimal(len), 10) && h[58..] == "`\n"
  {
    var a, b, c, d := Padded(name, 16), Padded(Decimal(mtime), 12), OWNER_AND_MODE, Padded(Decimal(len), 10);
    hide Padded, Decimal;
    assert |c| == 20;
    Between(a, b, c + d + "`\n");
    assert a + b + (c + d + "`\n") == Header(name, len, mtime);
    Between(a + b, c, d + "`\n");
    assert a + b + c + (d + "`\n") == Header(name, len, mtime);
    Between(a + b + c, d, "`\n");
  }

  lemma OwnerColumns(h: Bytes)
    requires |h| == HEADER_LEN && h[28..48] == OWNER_AND_MODE
    ensures h[28..34] == "0     " && h[34..40] == "0     " && h[40..48] == "100644  "
  {
    assert h[28..34] == h[28..48][..6] && h[34..40] == h[28..48][6..12] && h[40..48] == h[28..48][12..];
  }

  lemma OwnerAndMode()
    ensures Number("0     ") == Some(0) && M.ParseOct(Stripped("100644  ")) == Some(FILE_MODE)
  {
    assert "0     " == "0" + Spaces(5) && "100644  " == "100644" + Spaces(2);
    StripSpaces("0", 5);
    StripSpaces("100644", 2);
    assert ParseDecimal("0") == Some(0);
    assert "100644"[..5] == "10064" && "10064"[..4] == "1006" && "1006"[..3] == "100";
    assert "100"[..2] == "10" && "10"[..1] == "1";
    assert M.ParseOct("1") == Some(1) && M.ParseOct("10") == Some(8) && M.ParseOct("100") == Some(64);
    assert M.ParseOct("1006") == Some(518) && M.ParseOct("10064") == Some(4148);
  }

  /** A header says what it was made from, and that the file is one of root's. */
  lemma HeaderRead(name: string, len: nat, mtime: nat)
    requires HeaderFits(name, len, mtime) && NameKept(name)
    ensures |Header(name, len, mtime)| == HEADER_LEN
    ensures ReadHeader(Header(name, len, mtime)) == Some(ArHeader(name, mtime, 0, 0, FILE_MODE, len))
  {
    hide Header, Padded, Decimal, ParseDecimal, Stripped, HeaderFits, M.ParseOct;
    Columns(name, len, mtime);
    OwnerColumns(Header(name, len, mtime));
    OwnerAndMode();
    NameStripped(name);
    DecimalRoundTrip(mtime);
    DecimalRoundTrip(len);
    StripPadded(Decimal(mtime), 12);
    StripPadded(Decimal(len), 10);
  }

  lemma NameStripped(name: string)
    requires NameKept(name)
    ensures Stripped(Padded(name, 16)) == name
  {
    StripPadded(name, 16);
  }

  lemma ReadFirst(data: Bytes, h: ArHeader)
    requires |data| >= HEADER_LEN + h.len && ReadHeader(data[..HEADER_LEN]) == Some(h)
    ensures ReadMembers(data) ==
      if |data| < HEADER_LEN + h.len + h.len % 2 then None
      else
        Prepended(ArEntry(h.name, h.mtime, h.owner, h.group, h.mode, data[HEADER_LEN..HEADER_LEN + h.len]),
                  ReadMembers(data[HEADER_LEN + h.len + h.len % 2..]))
  {
    hide ReadHeader, Prepended;
  }

  /** Reading one member, padding and all. */
  lemma ReadOne(name: string, content: Bytes, mtime: nat, rest: Bytes)
    requires HeaderFits(name, |content|, mtime) && NameKept(name)
    ensures var data, pad := (Header(name, |content|, mtime) + content) + rest, |content| % 2;
      ReadMembers(data) == if |rest| < pad then None
        else Prepended(EntryOf(name, mtime, content), ReadMembers(rest[pad..]))
  {
    hide Header, HeaderFits, NameKept, ReadHeader, ReadMembers, Prepended, ParseDecimal, Stripped, M.ParseOct;
    var header, pad := Header(name, |content|, mtime), |content| % 2;
    HeaderRead(name, |content|, mtime);
    Slices(header, content, rest, pad);
    ReadFirst((header + content) + rest, ArHeader(name, mtime, 0, 0, FILE_MODE, |content|));
  }

  lemma Slices(header: Bytes, content: Bytes, rest: Bytes, pad: nat)
    ensures var data := (header + content) + rest;
      && |data| == |header| + |content| + |rest| && data[..|header|] == header
      && data[|header|..|header| + |content|] == content
      && (pad <= |rest| ==> data[|header| + |content| + pad..] == rest[pad..])
  {
  }

  /** An archive of members whose headers fit is read back as it was written if and only if all
      lengths are even: the writer adds no padding, and the reader stumbles where it should be. */
  lemma {:induction false} ReadBackIffEven(members: seq<ArMember>, mtime: nat)
    requires AllFit(members, mtime) && NamesKept(members)
    ensures ReadMembers(Archive(members, mtime)) ==
      if AllEven(members) then Some(EntriesFor(members, mtime)) else None
    decreases |members|
  {
    hide *;
    if members == [] {
      NothingRead(mtime);
    } else {
      var m, rest := members[0], members[1..];
      FirstOfArchive(members, mtime);
      FitsColumns(m, mtime);
      FirstAndRest(members, mtime);
      ReadOne(m.name, m.Content(), mtime, Archive(rest, mtime));
      if |m.Content()| % 2 == 0 {
        ReadBackIffEven(rest, mtime);
        assert Archive(rest, mtime)[0..] == Archive(rest, mtime);
        PrependedMeans(EntryOf(m.name, mtime, m.Content()), EntriesFor(rest, mtime));
      } else if rest != [] {
        MisalignedFails(rest, mtime);
        PrependedMeans(EntryOf(m.name, mtime, m.Content()), []);
      } else {
        NothingRead(mtime);
      }
    }
  }

  /** So the file that is written is read back as it was written if and only if all lengths are even. */
  lemma FileReadBackIffEven(members: seq<ArMember>, mtime: nat)
    requires AllFit(members, mtime) && NamesKept(members)
    ensures ReadArchive(AddedAll(Output(MAGIC, |MAGIC|), members, mtime).bytes) ==
      if AllEven(members) then Some(EntriesFor(members, mtime)) else None
  {
    hide AddedAll, Archive, ReadMembers, Fits;
    OutputIsDirectIff(MAGIC, members, mtime);
    ReadBackIffEven(members, mtime);
    assert (MAGIC + Archive(members, mtime))[|MAGIC|..] == Archive(members, mtime);
  }

  lemma PrependedMeans(e: ArEntry, rest: seq<ArEntry>)
    ensures Prepended(e, Some(rest)) == Some([e] + rest) && Prepended(e, None) == None
  {
  }

  lemma NothingRead(mtime: nat)
    ensures Archive([], mtime) == [] && ReadMembers([]) == Some([]) && AllEven([]) && EntriesFor([], mtime) == []
  {
  }

  lemma FirstAndRest(members: seq<ArMember>, mtime: nat)
    requires members != [] && NamesKept(members)
    ensures AllEven(members) <==> |members[0].Content()| % 2 == 0 && AllEven(members[1..])
    ensures NameKept(members[0].name) && NamesKept(members[1..])
    ensures EntriesFor(members, mtime) ==
      [EntryOf(members[0].name, mtime, members[0].Content())] + EntriesFor(members[1..], mtime)
  {
    hide Concat, NameKept;
    var rest := members[1..];
    forall i | 0 <= i < |rest| ensures rest[i] == members[i + 1] && NameKept(rest[i].name) {
      assert NameKept(members[i + 1].name);
    }
    if |members[0].Content()| % 2 == 0 && AllEven(rest) {
      forall i | 0 <= i < |members| ensures |members[i].Content()| % 2 == 0 {
        assert i > 0 ==> members[i] == rest[i - 1];
      }
    }
    if AllEven(members) {
      forall i | 0 <= i < |rest| ensures |rest[i].Content()| % 2 == 0 {
        assert rest[i] == members[i + 1];
      }
    }
  }

  lemma NoMagicNoMember(data: Bytes)
    requires data != [] && (|data| < HEADER_LEN || data[58] != '`')
    ensures ReadMembers(data).None?
  {
    if |data| >= HEADER_LEN {
      assert data[..HEADER_LEN][58..][0] == data[58];
    }
  }

  lemma MisalignedFails(members: seq<ArMember>, mtime: nat)
    requires members != [] && AllFit(members, mtime)
    ensures Archive(members, mtime) != [] && ReadMembers(Archive(members, mtime)[1..]).None?
  {
    hide Archive, ReadMembers, Header, Fits, HeaderFits, Concat, Padded, Decimal;
    var m, rest := members[0], Archive(members[1..], mtime);
    FirstOfArchive(members, mtime);
    FitsColumns(m, mtime);
    var header, data := Header(m.name, |m.Content()|, mtime), Archive(members, mtime);
    Columns(m.name, |m.Content()|, mtime);
    assert header[59] == header[58..][1] == '\n';
    assert data[59] == header[59];
    NoMagicNoMember(data[1..]);
  }

  lemma FitsColumns(m: ArMember, mtime: nat)
    requires Fits(m, mtime)
    ensures HeaderFits(m.name, |m.Content()|, mtime)
  {
  }
}
