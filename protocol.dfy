/** The peer-to-peer wire protocol (protocol.py): building the five message kinds
    and `parse_message`, which classifies an incoming message into one of seven
    kinds. Messages are byte strings; the textual ones are ASCII. */
module Protocol {
  import opened Text
  import opened Collections

  /** The tuple `parse_message` returns: the command and, where it has them,
      the block id and the payload. */
  datatype Message =
    | Get(id: int)
    | List
    | Block(id: int, data: Bytes)
    | Blocks(payload: Bytes)
    | Error(text: Bytes)
    | Invalid
    | Unknown

  const GET: Bytes := [71, 69, 84]                // "GET"
  const LIST: Bytes := [76, 73, 83, 84]           // "LIST"
  const BLOCK: Bytes := [66, 76, 79, 67, 75]      // "BLOCK"
  const BLOCKS: Bytes := BLOCK + [83]             // "BLOCKS"
  const ERROR: Bytes := [69, 82, 82, 79, 82]      // "ERROR"
  const BLOCK_PREFIX: Bytes := BLOCK + [SPACE]    // "BLOCK "

  // ---------------------------------------------------------------------------
  // Building messages
  // ---------------------------------------------------------------------------

  /** `build_get`: "GET <id>", ASCII text that is never taken for a BLOCK
      message; its two words are the keyword and `str(id)` (`GetWords`). */
  function BuildGet(id: int): (r: Bytes)
    ensures IsAscii(r) && !StartsWith(r, BLOCK_PREFIX)
  {
    var r := GET + [SPACE] + Show(id);
    ShowAscii(id);
    AsciiConcat(GET + [SPACE], Show(id));
    assert r[0] == GET[0];
    NotBlockPrefix(r);
    r
  }

  /** `build_list`: "LIST", a single ASCII word that is never taken for a BLOCK
      message. */
  function BuildList(): (r: Bytes)
    ensures r != [] && IsAscii(r) && NoSpace(r) && !StartsWith(r, BLOCK_PREFIX)
  {
    assert LIST[0] == 76;
    NotBlockPrefix(LIST);
    LIST
  }

  /** `build_block`: "BLOCK <id> " followed by the raw block bytes: the BLOCK
      prefix, the id, one space, and the data unchanged at the end. */
  function BuildBlock(id: int, data: Bytes): (r: Bytes)
    ensures StartsWith(r, BLOCK_PREFIX) && EndsWith(r, data)
    ensures |r| == |BLOCK_PREFIX| + |Show(id)| + 1 + |data|
    ensures r[|BLOCK_PREFIX|..|BLOCK_PREFIX| + |Show(id)|] == Show(id)
    ensures r[|BLOCK_PREFIX| + |Show(id)|] == SPACE
  {
    var rest := Show(id) + [SPACE] + data;
    var r := BLOCK_PREFIX + rest;
    assert r[..|BLOCK_PREFIX|] == BLOCK_PREFIX && r[|BLOCK_PREFIX|..] == rest;
    assert rest[..|Show(id)|] == Show(id) && rest[|Show(id)| + 1..] == data;
    r
  }

  /** `str` of each id. */
  function ShowAll(ids: seq<int>): (r: seq<Bytes>)
    ensures |r| == |ids|
    ensures forall i :: 0 <= i < |ids| ==> r[i] == Show(ids[i])
  {
    if ids == [] then [] else [Show(ids[0])] + ShowAll(ids[1..])
  }

  /** The comma-separated ids of a BLOCKS message, in ascending order. */
  function BlocksPayload(ids: set<int>): Bytes
  {
    Join(ShowAll(Ascending(ids)), COMMA)
  }

  /** `build_blocks_list`: "BLOCKS " and the sorted ids joined by commas. The
      message is text, never taken for a BLOCK message, and has nothing after the
      keyword and its space exactly when there are no ids. */
  function BuildBlocksList(ids: set<int>): (r: Bytes)
    ensures IsAscii(r) && StartsWith(r, BLOCKS) && !StartsWith(r, BLOCK_PREFIX)
    ensures r == BLOCKS + [SPACE] <==> ids == {}
  {
    PayloadAscii(ids);
    BlocksMessage(BlocksPayload(ids));
    BLOCKS + [SPACE] + BlocksPayload(ids)
  }

  /** The payload is ASCII, and empty exactly when there are no ids. */
  lemma PayloadAscii(ids: set<int>)
    ensures IsAscii(BlocksPayload(ids))
    ensures BlocksPayload(ids) == [] <==> ids == {}
  {
    if ids != {} {
      JoinShowAll(Ascending(ids));
    } else {
      assert Ascending(ids) == [];
    }
  }

  lemma BlocksMessage(j: Bytes)
    requires IsAscii(j)
    ensures var r := BLOCKS + [SPACE] + j;
      IsAscii(r) && StartsWith(r, BLOCKS) && !StartsWith(r, BLOCK_PREFIX)
      && (r == BLOCKS + [SPACE] <==> j == [])
  {
    var head := BLOCKS + [SPACE];
    var r := head + j;
    AsciiConcat(head, j);
    assert r[..|BLOCKS|] == BLOCKS;
    if |r| >= |BLOCK_PREFIX| {
      assert r[..|BLOCK_PREFIX|][5] == r[5] == 83;
    }
    if r == head {
      assert |j| == 0;
    }
  }

  /** `build_error`: "ERROR <msg>", never taken for a BLOCK message, and text
      whenever the message is. */
  function BuildError(msg: Bytes): (r: Bytes)
    ensures StartsWith(r, ERROR) && !StartsWith(r, BLOCK_PREFIX)
    ensures ValidUtf8(msg) ==> ValidUtf8(r)
  {
    var head := ERROR + [SPACE];
    var r := head + msg;
    assert r[..|ERROR|] == ERROR;
    assert r[0] == ERROR[0];
    NotBlockPrefix(r);
    if ValidUtf8(msg) then ValidUtf8Concat(head, msg); r else r
  }

  // ---------------------------------------------------------------------------
  // parse_message
  // ---------------------------------------------------------------------------

  /** A BLOCK message after its "BLOCK " prefix: `split(b' ', 2)` gives the id field
      and, when there is a second space, the data after it. Without a second
      space the data is empty; an id field that `int()` rejects makes the message
      invalid. */
  function ParseBlock(rest: Bytes): (m: Message)
    ensures m.Block? || m.Invalid?
    ensures m.Block? ==> EndsWith(rest, m.data)
  {
    var k := IndexOf(rest, SPACE);
    var field := if k.Some? then rest[..k.value] else rest;
    var data := if k.Some? then rest[k.value + 1..] else [];
    assert EndsWith(rest, data);
    match ParseInt(field)
    case Some(id) => Block(id, data)
    case None => Invalid
  }


  /** The GET branch: exactly two words, the second all digits. */
  function ParseGet(d: Bytes): (m: Message)
    ensures m.Get? || m.Invalid?
    ensures m.Get? <==> |Split(d)| == 2 && IsDigits(Split(d)[1])
    ensures m.Get? ==> m.id >= 0 && Some(m.id) == ParseInt(Split(d)[1])
  {
    var parts := Split(d);
    if |parts| == 2 && IsDigits(parts[1]) then
      match ParseInt(parts[1])
      case Some(id) => Get(id)
      case None => Invalid
    else Invalid
  }


  /** The text branches of `parse_message`, on the decoded and stripped message. */
  function ParseText(d: Bytes): (m: Message)
    ensures !m.Block?
    ensures m.Get? ==> m.id >= 0
    ensures m.Blocks? ==> m.payload != [] && !IsTextSpace(m.payload[0])
    ensures m.Error? ==> m.text != [] && !IsTextSpace(m.text[0])
  {
    if StartsWith(d, GET) then ParseGet(d)
    else if d == LIST then List
    else if StartsWith(d, BLOCKS) && |SplitOnce(d)| == 2 then Blocks(SplitOnce(d)[1])
    else if StartsWith(d, ERROR) && |SplitOnce(d)| == 2 then Error(SplitOnce(d)[1])
    else Unknown
  }

  /** `parse_message`. A message starting with "BLOCK " is taken apart as bytes;
      any other is decoded as UTF-8 (failure: INVALID), stripped, and recognised
      by its first word. */
  function Parse(msg: Bytes): (m: Message)
    ensures StartsWith(msg, BLOCK_PREFIX) ==> m.Block? || m.Invalid?
    ensures m.Block? ==> StartsWith(msg, BLOCK_PREFIX) && EndsWith(msg, m.data)
    ensures !StartsWith(msg, BLOCK_PREFIX) && !ValidUtf8(msg) ==> m == Invalid
    ensures m.Get? ==> m.id >= 0
    ensures m.Blocks? ==> m.payload != [] && !IsTextSpace(m.payload[0])
    ensures m.Error? ==> m.text != [] && !IsTextSpace(m.text[0])
  {
    if StartsWith(msg, BLOCK_PREFIX) then
      var rest := msg[|BLOCK_PREFIX|..];
      var m := ParseBlock(rest);
      SuffixOfSuffix(msg, rest, m);
      m
    else if !ValidUtf8(msg) then Invalid
    else ParseText(Strip(msg, true))
  }

  lemma SuffixOfSuffix(msg: Bytes, rest: Bytes, m: Message)
    requires |rest| <= |msg| && rest == msg[|msg| - |rest|..]
    requires m.Block? ==> EndsWith(rest, m.data)
    ensures m.Block? ==> EndsWith(msg, m.data)
  {
    if m.Block? {
      assert msg[|msg| - |m.data|..] == rest[|rest| - |m.data|..];
    }
  }

  /** A message that is not a BLOCK message and decodes is parsed as text. */
  lemma ParseDecoded(msg: Bytes)
    requires !StartsWith(msg, BLOCK_PREFIX) && ValidUtf8(msg)
    ensures Parse(msg) == ParseText(Strip(msg, true))
  {
  }

  // ---------------------------------------------------------------------------
  // Round trips
  // ---------------------------------------------------------------------------

  /** A block message gives back its id and its data, whatever bytes the data holds. */
  lemma ParseBuildBlock(id: int, data: Bytes)
    ensures Parse(BuildBlock(id, data)) == Block(id, data)
  {
    BlockMessage(Show(id) + [SPACE] + data);
    ParseBlockOf(id, data);
  }

  /** What follows "BLOCK " in a block message is read back as its id and data. */
  lemma ParseBlockOf(id: int, data: Bytes)
    ensures ParseBlock(Show(id) + [SPACE] + data) == Block(id, data)
  {
    var rest := Show(id) + [SPACE] + data;
    assert IndexOf(rest, SPACE) == Some(|Show(id)|) by {
      assert SPACE !in Show(id);
      IndexOfAfter(Show(id), SPACE, data);
    }
    assert rest[..|Show(id)|] == Show(id);
    assert rest[|Show(id)| + 1..] == data;
    ParseShow(id);
  }

  /** A BLOCK message without a second space carries empty data. */
  lemma ParseBlockWithoutData(id: int)
    ensures Parse(BLOCK_PREFIX + Show(id)) == Block(id, [])
  {
    var msg := BLOCK_PREFIX + Show(id);
    assert msg[..|BLOCK_PREFIX|] == BLOCK_PREFIX;
    assert msg[|BLOCK_PREFIX|..] == Show(id);
    assert SPACE !in Show(id);
    ParseShow(id);
  }

  /** A BLOCK message whose id field `int()` rejects is invalid, whether or not
      data follows it. */
  lemma ParseBadBlockId(field: Bytes, data: Bytes)
    requires SPACE !in field && ParseInt(field).None?
    ensures Parse(BLOCK_PREFIX + field) == Invalid
    ensures Parse(BLOCK_PREFIX + (field + [SPACE] + data)) == Invalid
  {
    ParseBlockBadId(field, data);
    BlockMessage(field);
    BlockMessage(field + [SPACE] + data);
  }

  /** Whatever follows "BLOCK " is handed to the BLOCK branch. */
  lemma BlockMessage(rest: Bytes)
    ensures Parse(BLOCK_PREFIX + rest) == ParseBlock(rest)
  {
    var msg := BLOCK_PREFIX + rest;
    assert msg[..|BLOCK_PREFIX|] == BLOCK_PREFIX && msg[|BLOCK_PREFIX|..] == rest;
  }

  /** After "BLOCK ", an id field that `int()` rejects makes the message invalid. */
  lemma ParseBlockBadId(field: Bytes, data: Bytes)
    requires SPACE !in field && ParseInt(field).None?
    ensures ParseBlock(field) == Invalid
    ensures ParseBlock(field + [SPACE] + data) == Invalid
  {
    var rest := field + [SPACE] + data;
    IndexOfAfter(field, SPACE, data);
    assert rest[..|field|] == field;
  }

  /** The first byte decides that a message is not a BLOCK message. */
  lemma NotBlockPrefix(msg: Bytes)
    requires msg != [] && msg[0] != BLOCK[0]
    ensures !StartsWith(msg, BLOCK_PREFIX)
  {
    if |msg| >= |BLOCK_PREFIX| {
      assert msg[..|BLOCK_PREFIX|][0] == msg[0];
    }
  }

  /** An ASCII text that needs no stripping is taken as it is. */
  lemma DecodedAs(msg: Bytes)
    requires IsAscii(msg) && msg != []
    requires !IsTextSpace(msg[0]) && !IsTextSpace(msg[|msg| - 1])
    ensures ValidUtf8(msg) && Strip(msg, true) == msg
  {
    StripUnpadded(msg, true);
  }

  /** A GET request gives back its id when the id is non-negative; the minus sign
      of a negative id fails `isdigit()` and makes the request invalid. */
  lemma ParseBuildGet(id: int)
    ensures Parse(BuildGet(id)) == if id >= 0 then Get(id) else Invalid
  {
    GetMessage(id);
    ParseGetOf(id);
  }

  /** A GET request is parsed by the GET branch as it is. */
  lemma GetMessage(id: int)
    ensures Parse(BuildGet(id)) == ParseGet(BuildGet(id))
  {
    GetShape(id);
    ParseGetMessage(BuildGet(id));
  }

  lemma GetShape(id: int)
    ensures var msg := BuildGet(id);
      && StartsWith(msg, GET) && !StartsWith(msg, BLOCK_PREFIX)
      && ValidUtf8(msg) && Strip(msg, true) == msg
  {
    GetUnpadded(id);
    GetHead(id);
  }

  /** A decodable text starting with "GET" and needing no stripping goes to the
      GET branch as it is. */
  lemma ParseGetMessage(msg: Bytes)
    requires StartsWith(msg, GET) && !StartsWith(msg, BLOCK_PREFIX)
    requires ValidUtf8(msg) && Strip(msg, true) == msg
    ensures Parse(msg) == ParseGet(msg)
  {
    ParseDecoded(msg);
    ParseTextGet(msg);
  }

  /** A GET request has no whitespace at its ends. */
  lemma GetUnpadded(id: int)
    ensures Strip(BuildGet(id), true) == BuildGet(id)
  {
    var msg := BuildGet(id);
    var s := Show(id);
    assert msg == GET + [SPACE] + s;
    ShowNonEmptyEnd(id);
    assert msg[0] == GET[0] && msg[|msg| - 1] == s[|s| - 1];
    StripUnpadded(msg, true);
  }

  lemma GetHead(id: int)
    ensures StartsWith(BuildGet(id), GET)
  {
    HeadOfThree(GET, [SPACE], Show(id));
  }

  lemma HeadOfThree(a: Bytes, b: Bytes, c: Bytes)
    ensures StartsWith(a + b + c, a)
  {
    assert (a + b + c)[..|a|] == a;
  }

  /** A text starting with "GET" goes to the GET branch. */
  lemma ParseTextGet(d: Bytes)
    requires StartsWith(d, GET)
    ensures ParseText(d) == ParseGet(d)
  {
  }

  /** The GET branch reads the id back when it is non-negative. */
  lemma ParseGetOf(id: int)
    ensures ParseGet(BuildGet(id)) == if id >= 0 then Get(id) else Invalid
  {
    GetWords(id);
    ShowIsDigits(id);
    ParseShow(id);
  }

  /** A GET request splits into the keyword and the id. */
  lemma GetWords(id: int)
    ensures Split(BuildGet(id)) == [GET, Show(id)]
  {
    forall i | 0 <= i < |GET| ensures !IsTextSpace(GET[i]) {
    }
    SplitOfTokens(GET, Show(id));
  }

  /** LIST is recognised, also with whitespace around it (such as a newline). */
  lemma ParseBuildList(pre: Bytes, post: Bytes)
    requires forall i :: 0 <= i < |pre| ==> IsTextSpace(pre[i])
    requires forall i :: 0 <= i < |post| ==> IsTextSpace(post[i])
    ensures Parse(pre + BuildList() + post) == List
  {
    var msg := pre + LIST + post;
    assert msg[0] == if pre == [] then LIST[0] else pre[0];
    NotBlockPrefix(msg);
    SpacesAscii(pre);
    SpacesAscii(post);
    AsciiConcat(pre, LIST);
    AsciiConcat(pre + LIST, post);
    StripPadded(pre, LIST, post);
    ParseDecoded(msg);
    ParseTextList();
  }

  lemma ParseTextList()
    ensures ParseText(LIST) == List
  {
    assert LIST[..|GET|][0] == LIST[0];
  }

  lemma SpacesAscii(s: Bytes)
    requires forall i :: 0 <= i < |s| ==> IsTextSpace(s[i])
    ensures IsAscii(s)
  {
  }

  lemma AsciiConcat(a: Bytes, b: Bytes)
    requires IsAscii(a) && IsAscii(b)
    ensures IsAscii(a + b)
  {
    forall i | |a| <= i < |a + b| ensures (a + b)[i] < 0x80 {
      assert (a + b)[i] == b[i - |a|];
    }
  }

  /** The text "<keyword> <rest>", with a rest that does not start with whitespace. */
  lemma KeywordSplit(keyword: Bytes, rest: Bytes)
    requires keyword == BLOCKS || keyword == ERROR
    requires rest != [] && !IsTextSpace(rest[0])
    ensures var d := keyword + [SPACE] + rest;
      && !StartsWith(d, GET) && d != LIST && StartsWith(d, keyword)
      && SplitOnce(d) == [keyword, rest]
  {
    var d := keyword + [SPACE] + rest;
    assert !StartsWith(d, GET) && d != LIST by {
      assert d[0] == keyword[0];
      assert |d| >= |GET| ==> d[..|GET|][0] == d[0];
    }
    assert StartsWith(d, keyword) by {
      assert d[..|keyword|] == keyword;
    }
    assert SplitOnce(d) == [keyword, rest] by {
      assert NoSpace(keyword);
      SplitOnceOf(keyword, rest);
    }
  }

  lemma ParseTextBlocks(payload: Bytes)
    requires payload != [] && !IsTextSpace(payload[0])
    ensures ParseText(BLOCKS + [SPACE] + payload) == Blocks(payload)
  {
    KeywordSplit(BLOCKS, payload);
  }

  lemma ParseTextError(text: Bytes)
    requires text != [] && !IsTextSpace(text[0])
    ensures ParseText(ERROR + [SPACE] + text) == Error(text)
  {
    var d := ERROR + [SPACE] + text;
    KeywordSplit(ERROR, text);
    assert d[..|BLOCKS|][0] == d[0];
  }

  /** A lone keyword is not recognised. */
  lemma ParseTextKeyword(keyword: Bytes)
    requires keyword == BLOCKS || keyword == ERROR
    ensures ParseText(keyword) == Unknown
  {
    assert keyword[..|GET|][0] == keyword[0];
    assert NoSpace(keyword);
    SplitOnceWord(keyword);
    if keyword == BLOCKS {
      assert keyword[..|ERROR|][0] == keyword[0];
    }
  }

  predicate IsListByte(b: byte)
  {
    IsDigit(b) || b == MINUS || b == COMMA
  }

  /** What a comma-joined list of integers is made of. */
  lemma {:induction false} JoinShowAll(ids: seq<int>)
    requires ids != []
    ensures var j := Join(ShowAll(ids), COMMA);
      && j != [] && IsDigit(j[|j| - 1]) && !IsTextSpace(j[0])
      && forall i :: 0 <= i < |j| ==> IsListByte(j[i])
  {
    var parts := ShowAll(ids);
    var j := Join(parts, COMMA);
    ShowNonEmptyEnd(ids[0]);
    if |ids| > 1 {
      JoinShowAll(ids[1..]);
      assert ShowAll(ids)[1..] == ShowAll(ids[1..]);
      var tail := Join(parts[1..], COMMA);
      assert j == parts[0] + [COMMA] + tail;
      forall i | 0 <= i < |j| ensures IsListByte(j[i]) {
        if i > |parts[0]| {
          assert j[i] == tail[i - |parts[0]| - 1];
        } else if i < |parts[0]| {
          assert j[i] == parts[0][i];
        }
      }
      assert j[|j| - 1] == tail[|tail| - 1];
    }
  }

  lemma ShowNonEmptyEnd(i: int)
    ensures var s := Show(i); IsDigit(s[|s| - 1]) && !IsTextSpace(s[0])
  {
    if i < 0 {
      var s := Show(i);
      assert s[|s| - 1] == ShowNat(-i)[|ShowNat(-i)| - 1];
    }
  }

  /** A non-empty BLOCKS list is recognised with its payload; an empty one is
      "BLOCKS " which strips to a single word and is not recognised at all. */
  lemma ParseBuildBlocksList(ids: set<int>)
    ensures Parse(BuildBlocksList(ids)) == if ids == {} then Unknown else Blocks(BlocksPayload(ids))
  {
    var j := BlocksPayload(ids);
    if ids == {} {
      assert j == [] by {
        assert Ascending(ids) == [];
      }
      assert BuildBlocksList(ids) == BLOCKS + [SPACE];
      ParseBareBlocks();
    } else {
      JoinShowAll(Ascending(ids));
      ParseBlocksPayload(j);
    }
  }

  /** "BLOCKS" followed by a payload that ends in a digit is recognised with it. */
  lemma ParseBlocksPayload(j: Bytes)
    requires j != [] && !IsTextSpace(j[0]) && IsDigit(j[|j| - 1])
    requires forall i :: 0 <= i < |j| ==> IsListByte(j[i])
    ensures Parse(BLOCKS + [SPACE] + j) == Blocks(j)
  {
    var head := BLOCKS + [SPACE];
    var msg := head + j;
    assert !StartsWith(msg, BLOCK_PREFIX) by {
      assert msg[..|BLOCK_PREFIX|][5] == msg[5] == 83;
    }
    assert ValidUtf8(msg) && Strip(msg, true) == msg by {
      AsciiConcat(head, j);
      assert msg[|msg| - 1] == j[|j| - 1];
      DecodedAs(msg);
    }
    ParseDecoded(msg);
    ParseTextBlocks(j);
  }

  /** "BLOCKS " strips to the bare keyword, which is not recognised. */
  lemma ParseBareBlocks()
    ensures Parse(BLOCKS + [SPACE]) == Unknown
  {
    ParseBareKeyword(BLOCKS);
  }

  /** A keyword followed by a space and nothing else strips to the bare
      keyword, which is not recognised. */
  lemma ParseBareKeyword(keyword: Bytes)
    requires keyword == BLOCKS || keyword == ERROR
    ensures Parse(keyword + [SPACE]) == Unknown
  {
    var msg := keyword + [SPACE];
    BareKeywordShape(keyword);
    BareKeywordStrip(keyword);
    ParseDecoded(msg);
    ParseTextKeyword(keyword);
  }

  lemma BareKeywordShape(keyword: Bytes)
    requires keyword == BLOCKS || keyword == ERROR
    ensures !StartsWith(keyword + [SPACE], BLOCK_PREFIX) && ValidUtf8(keyword + [SPACE])
  {
    var msg := keyword + [SPACE];
    if keyword == ERROR {
      assert msg[..|BLOCK_PREFIX|][0] == msg[0];
    } else {
      assert msg[..|BLOCK_PREFIX|][5] == msg[5];
    }
    assert IsAscii(msg);
  }

  lemma BareKeywordStrip(keyword: Bytes)
    requires keyword == BLOCKS || keyword == ERROR
    ensures Strip(keyword + [SPACE], true) == keyword
  {
    StripPadded([], keyword, [SPACE]);
    assert [] + keyword + [SPACE] == keyword + [SPACE];
  }

  /** A single word splits into itself. */
  lemma SplitOnceWord(w: Bytes)
    requires w != [] && NoSpace(w)
    ensures SplitOnce(w) == [w]
  {
    assert LStrip(w, true) == w;
    var e: Bytes := [];
    TokenLenOf(w, e);
    assert w + e == w;
  }

  /** An error message gives back its text when that text is non-empty, decodes,
      and has no whitespace at its ends (which stripping would remove). */
  lemma ParseBuildError(text: Bytes)
    requires ValidUtf8(text) && text != []
    requires !IsTextSpace(text[0]) && !IsTextSpace(text[|text| - 1])
    ensures Parse(BuildError(text)) == Error(text)
  {
    ErrorShape(text);
    ParseDecoded(BuildError(text));
    ParseTextError(text);
  }

  lemma ErrorShape(text: Bytes)
    requires text != [] && !IsTextSpace(text[|text| - 1])
    ensures !StartsWith(BuildError(text), BLOCK_PREFIX)
    ensures Strip(BuildError(text), true) == BuildError(text)
  {
    var msg := BuildError(text);
    assert msg[0] == ERROR[0];
    assert msg[|msg| - 1] == text[|text| - 1];
    NotBlockPrefix(msg);
    StripUnpadded(msg, true);
  }

  /** "ERROR " with nothing after it is not recognised. */
  lemma ParseEmptyError()
    ensures Parse(BuildError([])) == Unknown
  {
    assert BuildError([]) == ERROR + [SPACE];
    ParseBareKeyword(ERROR);
  }

  /** An empty message is not recognised. */
  lemma ParseEmpty()
    ensures Parse([]) == Unknown
  {
  }
}
