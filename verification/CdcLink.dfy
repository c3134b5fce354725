// The bench's serial link (tools/bench/cdc_link.py): one byte stream read as raw bytes for the
// GDL90 deframer and as text lines with the binary frames filtered out.
module CdcLink {
  import opened Bytes
  import opened Gdl90

  const NEWLINE: Byte := 0x0A
  const CR: Byte := 0x0D

  // ---- what the link has seen, as functions of every byte received so far

  predicate InFrame(received: seq<Byte>) {
    if |received| == 0 then false
    else
      var before := InFrame(received[..|received| - 1]);
      if received[|received| - 1] == GDL90_FLAG then !before else before
  }

  // The text view: frames removed, one newline where each ended.
  function Text(received: seq<Byte>): seq<Byte> {
    if |received| == 0 then []
    else
      var before, b := received[..|received| - 1], received[|received| - 1];
      Text(before) + TextByte(InFrame(before), b)
  }

  function TextByte(inFrame: bool, b: Byte): seq<Byte> {
    if inFrame then (if b == GDL90_FLAG then [NEWLINE] else [])
    else if b == GDL90_FLAG then [] else [b]
  }

  function StripCr(line: seq<Byte>): seq<Byte> {
    if |line| > 0 && line[|line| - 1] == CR then StripCr(line[..|line| - 1]) else line
  }

  // Exactly the carriage returns at the end go.
  lemma {:induction false} StripCrMeans(line: seq<Byte>)
    ensures StripCr(line) <= line && forall i :: |StripCr(line)| <= i < |line| ==> line[i] == CR
    ensures |StripCr(line)| > 0 ==> StripCr(line)[|StripCr(line)| - 1] != CR
  {
    if |line| > 0 && line[|line| - 1] == CR {
      StripCrMeans(line[..|line| - 1]);
    }
  }

  // The complete lines of a text, and what follows its last newline.
  function Lines(text: seq<Byte>): seq<seq<Byte>> {
    if |text| == 0 then []
    else
      var before := text[..|text| - 1];
      Lines(before) + (if text[|text| - 1] == NEWLINE then [StripCr(Unfinished(before))] else [])
  }

  function Unfinished(text: seq<Byte>): seq<Byte> {
    if |text| == 0 || text[|text| - 1] == NEWLINE then []
    else Unfinished(text[..|text| - 1]) + [text[|text| - 1]]
  }

  lemma TextNext(received: seq<Byte>, b: Byte)
    ensures InFrame(received + [b]) == if b == GDL90_FLAG then !InFrame(received) else InFrame(received)
    ensures Text(received + [b]) == Text(received) + TextByte(InFrame(received), b)
  {
  }

  lemma LinesNext(text: seq<Byte>, b: Byte)
    ensures b != NEWLINE ==> Lines(text + [b]) == Lines(text)
                             && Unfinished(text + [b]) == Unfinished(text) + [b]
    ensures b == NEWLINE ==> Lines(text + [b]) == Lines(text) + [StripCr(Unfinished(text))]
                             && Unfinished(text + [b]) == []
  {
  }

  // Only the unfinished line of what came before matters for what comes next.
  lemma {:induction false} LinesConcat(a: seq<Byte>, b: seq<Byte>)
    ensures Lines(a + b) == Lines(a) + Lines(Unfinished(a) + b)
    ensures Unfinished(a + b) == Unfinished(Unfinished(a) + b)
    decreases |b|
  {
    hide Lines, Unfinished, StripCr;
    if |b| == 0 {
      UnfinishedHasNoNewline(a);
      NoNewlineNoLines(Unfinished(a));
      assert a + b == a && Unfinished(a) + b == Unfinished(a);
    } else {
      var most, last := b[..|b| - 1], b[|b| - 1];
      LinesConcat(a, most);
      LinesNext(a + most, last);
      LinesNext(Unfinished(a) + most, last);
      Associate(a, most, last, b);
      Associate(Unfinished(a), most, last, b);
    }
  }

  lemma Associate<T>(a: seq<T>, most: seq<T>, last: T, b: seq<T>)
    requires |b| > 0 && most == b[..|b| - 1] && last == b[|b| - 1]
    ensures a + b == a + most + [last]
  {
  }

  lemma {:induction false} UnfinishedHasNoNewline(text: seq<Byte>)
    ensures NEWLINE !in Unfinished(text)
  {
    if |text| != 0 && text[|text| - 1] != NEWLINE {
      UnfinishedHasNoNewline(text[..|text| - 1]);
    }
  }

  lemma {:induction false} NoNewlineNoLines(text: seq<Byte>)
    requires NEWLINE !in text
    ensures Lines(text) == [] && Unfinished(text) == text
  {
    hide StripCr;
    if |text| != 0 {
      NoNewlineNoLines(text[..|text| - 1]);
      assert text[..|text| - 1] + [text[|text| - 1]] == text;
    }
  }

  lemma FirstLine(raw: seq<Byte>, rest: seq<Byte>)
    requires NEWLINE !in raw
    ensures Lines(raw + [NEWLINE] + rest) == [StripCr(raw)] + Lines(rest)
    ensures Unfinished(raw + [NEWLINE] + rest) == Unfinished(rest)
  {
    hide Lines, Unfinished, StripCr;
    NoNewlineNoLines(raw);
    LinesNext(raw, NEWLINE);
    LinesConcat(raw + [NEWLINE], rest);
    assert [] + rest == rest;
    assert [] + [StripCr(raw)] == [StripCr(raw)];
  }

  // ---- the link object

  class Link {
    var byteBuf: seq<Byte>
    var inFrame: bool
    var lineBuf: seq<Byte>
    var lines: seq<seq<Byte>>
    // Everything received, and what readers have taken from the two views.
    ghost var received: seq<Byte>
    ghost var bytesTaken: seq<Byte>
    ghost var linesTaken: seq<seq<Byte>>

    // Nothing is lost, duplicated or reordered in either view.
    ghost predicate Valid()
      reads this
    {
      && bytesTaken + byteBuf == received
      && linesTaken + lines == Lines(Text(received))
      && lineBuf == Unfinished(Text(received))
      && inFrame == InFrame(received)
    }

    constructor ()
      ensures Valid() && received == [] && bytesTaken == [] && linesTaken == []
    {
      byteBuf, inFrame, lineBuf, lines := [], false, [], [];
      received, bytesTaken, linesTaken := [], [], [];
    }

    method FilterTextBytes(chunk: seq<Byte>) returns (out: seq<Byte>)
      requires inFrame == InFrame(received)
      modifies this`inFrame
      ensures inFrame == InFrame(received + chunk)
      ensures Text(received + chunk) == Text(received) + out
    {
      hide InFrame, Text;
      out := [];
      assert received + chunk[..0] == received;
      NothingAfter(Text(received));
      for i := 0 to |chunk|
        invariant inFrame == InFrame(received + chunk[..i])
        invariant Text(received + chunk[..i]) == Text(received) + out
      {
        var b := chunk[i];
        TextNext(received + chunk[..i], b);
        assert received + chunk[..i + 1] == received + chunk[..i] + [b];
        if inFrame {
          if b == GDL90_FLAG {
            inFrame := false;
            out := out + [NEWLINE];
          }
        } else if b == GDL90_FLAG {
          inFrame := true;
        } else {
          out := out + [b];
        }
      }
      assert received + chunk[..|chunk|] == received + chunk;
    }

    method ConsumeLines(chunk: seq<Byte>)
      requires Valid()
      modifies this`inFrame, this`lineBuf, this`lines, this`byteBuf, this`received
      ensures Valid() && received == old(received) + chunk
    {
      hide InFrame, Text, Lines, Unfinished, StripCr;
      var filtered := FilterTextBytes(chunk);
      ghost var before := Text(received);
      LinesConcat(before, filtered);
      lineBuf := lineBuf + filtered;
      ghost var all := linesTaken + lines + Lines(lineBuf);
      ghost var last := Unfinished(lineBuf);
      while true
        invariant received == old(received) && byteBuf == old(byteBuf)
        invariant inFrame == InFrame(received + chunk)
        invariant linesTaken + lines + Lines(lineBuf) == all && Unfinished(lineBuf) == last
        decreases |lineBuf|
      {
        var nl := Find(lineBuf);
        if nl < 0 {
          NoNewlineNoLines(lineBuf);
          break;
        }
        var raw := lineBuf[..nl];
        var line := StripCr(raw);
        FirstLine(raw, lineBuf[nl + 1..]);
        assert lineBuf == raw + [NEWLINE] + lineBuf[nl + 1..];
        MoveFirst(linesTaken, lines, line, Lines(lineBuf[nl + 1..]));
        lineBuf := lineBuf[nl + 1..];
        lines := lines + [line];
      }
      assert linesTaken + lines + [] == linesTaken + lines;
      // The byte view gets the same chunk.
      assert bytesTaken + (byteBuf + chunk) == bytesTaken + byteBuf + chunk;
      byteBuf := byteBuf + chunk;
      received := received + chunk;
    }

    // The reader thread: whatever the chunks, both views describe their concatenation.
    method ReadLoop(chunks: seq<seq<Byte>>)
      requires Valid()
      modifies this
      ensures Valid() && received == old(received) + Flatten(chunks)
      ensures bytesTaken == old(bytesTaken) && linesTaken == old(linesTaken)
    {
      hide Valid;
      assert chunks[..0] == [];
      for i := 0 to |chunks|
        invariant Valid() && received == old(received) + Flatten(chunks[..i])
        invariant bytesTaken == old(bytesTaken) && linesTaken == old(linesTaken)
      {
        FlattenNext(chunks, i);
        if |chunks[i]| == 0 {
          continue;
        }
        ConsumeLines(chunks[i]);
      }
      assert chunks[..|chunks|] == chunks;
    }

    method ReadBytes(maxBytes: nat) returns (out: seq<Byte>)
      requires Valid()
      modifies this`byteBuf, this`bytesTaken
      ensures Valid() && bytesTaken == old(bytesTaken) + out
      ensures |out| == if |old(byteBuf)| <= maxBytes then |old(byteBuf)| else maxBytes
    {
      var n := if |byteBuf| <= maxBytes then |byteBuf| else maxBytes;
      out := byteBuf[..n];
      assert out + byteBuf[n..] == byteBuf;
      bytesTaken := bytesTaken + out;
      byteBuf := byteBuf[n..];
    }

    // One poll of the line queue.
    method PollLine() returns (found: bool, line: seq<Byte>)
      requires Valid()
      modifies this`lines, this`linesTaken
      ensures Valid() && (found <==> |old(lines)| > 0)
      ensures linesTaken == if found then old(linesTaken) + [line] else old(linesTaken)
    {
      hide InFrame, Text, Lines, Unfinished;
      if |lines| == 0 {
        return false, [];
      }
      TakeFirst(linesTaken, lines);
      found, line := true, lines[0];
      linesTaken := linesTaken + [line];
      lines := lines[1..];
    }
  }

  lemma TakeFirst<T>(a: seq<T>, b: seq<T>)
    requires |b| > 0
    ensures a + [b[0]] + b[1..] == a + b
  {
  }

  lemma NothingAfter<T>(s: seq<T>)
    ensures s + [] == s
  {
  }

  lemma MoveFirst<T>(a: seq<T>, b: seq<T>, x: T, c: seq<T>)
    ensures a + b + ([x] + c) == a + (b + [x]) + c
  {
  }

  method Find(s: seq<Byte>) returns (k: int)
    ensures -1 <= k < |s|
    ensures k < 0 <==> NEWLINE !in s
    ensures k >= 0 ==> s[k] == NEWLINE && NEWLINE !in s[..k]
  {
    k := 0;
    while k < |s|
      invariant 0 <= k <= |s| && NEWLINE !in s[..k]
    {
      if s[k] == NEWLINE {
        return;
      }
      k := k + 1;
    }
    k := -1;
  }

  function Flatten(chunks: seq<seq<Byte>>): seq<Byte> {
    if |chunks| == 0 then [] else Flatten(chunks[..|chunks| - 1]) + chunks[|chunks| - 1]
  }

  lemma FlattenNext(chunks: seq<seq<Byte>>, i: nat)
    requires i < |chunks|
    ensures Flatten(chunks[..i + 1]) == Flatten(chunks[..i]) + chunks[i]
  {
    assert chunks[..i + 1][..i] == chunks[..i];
  }

  // ---- a shared link: console text between GDL90 frames

  datatype Item = Console(text: seq<Byte>) | Message(msg: seq<Byte>)

  predicate WellFormed(items: seq<Item>) {
    forall i :: 0 <= i < |items| && items[i].Console? ==> NoFlag(items[i].text)
  }

  function Wire(items: seq<Item>): seq<Byte> {
    if |items| == 0 then []
    else Wire(items[..|items| - 1]) + WireItem(items[|items| - 1])
  }

  function WireItem(item: Item): seq<Byte> {
    match item
    case Console(text) => text
    case Message(msg) => FrameOf(msg)
  }

  function ShownItem(item: Item): seq<Byte> {
    match item
    case Console(text) => text
    case Message(_) => [NEWLINE]
  }

  function Shown(items: seq<Item>): seq<Byte> {
    if |items| == 0 then []
    else Shown(items[..|items| - 1]) + ShownItem(items[|items| - 1])
  }

  lemma {:induction false} PlainText(received: seq<Byte>, text: seq<Byte>)
    requires !InFrame(received) && NoFlag(text)
    ensures !InFrame(received + text) && Text(received + text) == Text(received) + text
    decreases |text|
  {
    hide InFrame, Text;
    if |text| == 0 {
      assert received + text == received;
    } else {
      var most, last := text[..|text| - 1], text[|text| - 1];
      PlainText(received, most);
      TextNext(received + most, last);
      Associate(received, most, last, text);
      Associate(Text(received), most, last, text);
    }
  }

  lemma {:induction false} HiddenBody(received: seq<Byte>, body: seq<Byte>)
    requires InFrame(received) && NoFlag(body)
    ensures InFrame(received + body) && Text(received + body) == Text(received)
    decreases |body|
  {
    hide InFrame, Text;
    if |body| == 0 {
      assert received + body == received;
    } else {
      var most, last := body[..|body| - 1], body[|body| - 1];
      HiddenBody(received, most);
      TextNext(received + most, last);
      Associate(received, most, last, body);
    }
  }

  lemma FrameIsOneNewline(received: seq<Byte>, msg: seq<Byte>)
    requires !InFrame(received)
    ensures !InFrame(received + FrameOf(msg))
    ensures Text(received + FrameOf(msg)) == Text(received) + [NEWLINE]
  {
    hide InFrame, Text, Stuff, CrcLow, CrcHigh;
    var body := Stuff(msg + [CrcLow(msg), CrcHigh(msg)]);
    StuffedHasNoFlag(msg + [CrcLow(msg), CrcHigh(msg)]);
    TextNext(received, GDL90_FLAG);
    HiddenBody(received + [GDL90_FLAG], body);
    TextNext(received + [GDL90_FLAG] + body, GDL90_FLAG);
    assert received + FrameOf(msg) == received + [GDL90_FLAG] + body + [GDL90_FLAG];
  }

  // The text view of the shared link is the console text with one newline per frame.
  lemma {:induction false} TextOfWire(items: seq<Item>)
    requires WellFormed(items)
    ensures Text(Wire(items)) == Shown(items) && !InFrame(Wire(items))
  {
    hide InFrame, Text, FrameOf;
    if |items| == 0 {
      TextOfNothing();
    } else {
      var n := |items| - 1;
      TextOfWire(items[..n]);
      match items[n]
      case Console(text) => PlainText(Wire(items[..n]), text);
      case Message(msg) => FrameIsOneNewline(Wire(items[..n]), msg);
    }
  }

  lemma TextOfNothing()
    ensures Text([]) == [] && !InFrame([])
  {
  }

  // When every console item is one whole line, those lines come out in order, with a blank
  // line for each frame.
  predicate WholeLines(items: seq<Item>) {
    forall i :: 0 <= i < |items| && items[i].Console? ==> IsLine(items[i].text)
  }

  predicate IsLine(text: seq<Byte>) {
    |text| > 0 && text[|text| - 1] == NEWLINE && NEWLINE !in text[..|text| - 1]
  }

  function Printed(items: seq<Item>): (lines: seq<seq<Byte>>)
    requires WholeLines(items)
    ensures |lines| == |items|
  {
    if |items| == 0 then []
    else
      var n := |items| - 1;
      Printed(items[..n]) + [PrintedItem(items[n])]
  }

  function PrintedItem(item: Item): seq<Byte>
    requires item.Console? ==> IsLine(item.text)
  {
    match item
    case Console(text) => StripCr(text[..|text| - 1])
    case Message(_) => []
  }

  lemma {:induction false} LinesOfShown(items: seq<Item>)
    requires WholeLines(items)
    ensures Lines(Shown(items)) == Printed(items) && Unfinished(Shown(items)) == []
  {
    hide Lines, Unfinished, StripCr;
    if |items| == 0 {
      LinesOfNothing();
    } else {
      var n := |items| - 1;
      LinesOfShown(items[..n]);
      LineOfItem(Shown(items[..n]), items[n]);
    }
  }

  lemma LinesOfNothing()
    ensures Lines([]) == [] && Unfinished([]) == []
  {
  }

  lemma LineOfItem(before: seq<Byte>, item: Item)
    requires Unfinished(before) == [] && (item.Console? ==> IsLine(item.text))
    ensures Lines(before + ShownItem(item)) == Lines(before) + [PrintedItem(item)]
    ensures Unfinished(before + ShownItem(item)) == []
  {
    hide Lines, Unfinished;
    var shown := ShownItem(item);
    LinesConcat(before, shown);
    LinesOfNothing();
    assert [] + shown == shown;
    var raw := shown[..|shown| - 1];
    FirstLine(raw, []);
    assert raw + [NEWLINE] + [] == shown;
    assert [StripCr(raw)] + [] == [StripCr(raw)];
  }

  // The whole path: frames and console lines in, exactly the console lines and blanks out.
  lemma SharedLinkLines(items: seq<Item>)
    requires WellFormed(items) && WholeLines(items)
    ensures Lines(Text(Wire(items))) == Printed(items)
    ensures Unfinished(Text(Wire(items))) == []
  {
    hide Lines, Unfinished, Text, Shown, Wire, Printed;
    TextOfWire(items);
    LinesOfShown(items);
  }

  // The same through the reader, for every chunking of the bytes: a fresh link ends up holding
  // exactly those lines, none unfinished.
  method ReadSharedLink(chunks: seq<seq<Byte>>, ghost items: seq<Item>) returns (link: Link)
    requires WellFormed(items) && WholeLines(items) && Flatten(chunks) == Wire(items)
    ensures fresh(link) && link.Valid()
    ensures link.lines == Printed(items) && link.lineBuf == [] && link.byteBuf == Wire(items)
  {
    hide Lines, Unfinished, Text, InFrame, Wire, Printed, WellFormed, WholeLines, Flatten;
    link := new Link();
    link.ReadLoop(chunks);
    SharedLinkLines(items);
    NothingBefore(Flatten(chunks));
    NothingBefore(link.lines);
    NothingBefore(link.byteBuf);
  }

  lemma NothingBefore<T>(s: seq<T>)
    ensures [] + s == s
  {
  }
}
