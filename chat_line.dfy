/** The chat-line classifier `Monitor.getInfo` (src/main/monitor.js): the
    channel table, the line's channel, and the speaker and message read from
    the text after the channel marker. */
module ChatLine {
  import opened Wrappers
  import opened JsStrings

  datatype Channel = GLOBAL | TRADE | WHISPER | LOCAL

  /** `Object.keys(Monitor.CHANNELS)`: the keys in the order they are declared. */
  const CHANNELS: seq<Channel> := [GLOBAL, TRADE, WHISPER, LOCAL]

  /** `Monitor.CHANNELS[c]`: the marker that puts a line in channel `c`. */
  function Marker(c: Channel): string
  {
    match c
    case GLOBAL => "] #"
    case TRADE => "] $"
    case WHISPER => "] @"
    case LOCAL => "] "
  }

  /** The position of `c` among the keys of the channel table. */
  function Rank(c: Channel): (k: nat)
    ensures k < |CHANNELS| && CHANNELS[k] == c
  {
    match c
    case GLOBAL => 0
    case TRADE => 1
    case WHISPER => 2
    case LOCAL => 3
  }

  /** What `getInfo` returns. `dateText` is the text handed to `new Date`;
      the calendar value moment builds from it is not modelled. `line` is the
      text after the channel marker that speaker and message are read from. */
  datatype Info = Info(dateText: string, channel: Channel, line: string, username: string, message: string)

  /** The TypeError `getInfo` raises when no marker matched: it reads
      `.split` of the undefined `info.line`. */
  datatype ParseError = ChannelLineUndefined

  /** `fragments[0] + ' ' + fragments[1]` for `fragments = line.split(' ')`;
      a line without a space has no `fragments[1]`, which JavaScript renders
      as "undefined". */
  function DateText(line: string): string
  {
    var fragments := Split(line, " ");
    fragments[0] + " " + (if |fragments| > 1 then fragments[1] else "undefined")
  }

  /** The first channel of `CHANNELS[k..]` whose marker occurs anywhere in
      `line`: the search loop of `getInfo` from its `k`-th iteration on. */
  function FirstChannelFrom(line: string, k: nat): (r: Option<Channel>)
    requires k <= |CHANNELS|
    ensures r.Some? ==> k <= Rank(r.value) && Contains(line, Marker(r.value))
    decreases |CHANNELS| - k
  {
    if k == |CHANNELS| then None
    else if Contains(line, Marker(CHANNELS[k])) then Some(CHANNELS[k])
    else FirstChannelFrom(line, k + 1)
  }

  /** The search answers the first channel from `k` on whose marker occurs,
      and none only when no marker from `k` on occurs. */
  lemma {:induction false} FirstChannelFromFindsFirst(line: string, k: nat)
    requires k <= |CHANNELS|
    ensures var r := FirstChannelFrom(line, k);
      (r.None? <==> forall j :: k <= j < |CHANNELS| ==> !Contains(line, Marker(CHANNELS[j]))) &&
      (r.Some? ==> forall j :: k <= j < Rank(r.value) ==> !Contains(line, Marker(CHANNELS[j])))
    decreases |CHANNELS| - k
  {
    if k < |CHANNELS| && !Contains(line, Marker(CHANNELS[k])) {
      FirstChannelFromFindsFirst(line, k + 1);
    }
  }

  /** `Monitor.getInfo(line)`: the channel is the first key of the table whose
      marker occurs anywhere in the line; `info.line` is `line.split(marker)[1]`;
      the username is the part of it before its first ':', untrimmed; the
      message is the remaining parts joined with '' (so every ':' is dropped)
      and trimmed. A line with no marker fails. */
  function ParseLine(line: string): (r: Result<Info, ParseError>)
    ensures r.Success? ==> Contains(line, Marker(r.value.channel))
  {
    match FirstChannelFrom(line, 0)
    case None => Failure(ChannelLineUndefined)
    case Some(c) =>
      var rest := Split(line, Marker(c))[1];
      Success(Info(DateText(line), c, rest, Username(rest), Message(rest)))
  }

  /** `getInfo` fails exactly when no marker of the table occurs in the line;
      otherwise the channel is one whose marker occurs and no channel listed
      before it has its marker in the line. */
  lemma ParseLineTakesFirstListedChannel(line: string)
    ensures var r := ParseLine(line);
      (r.Failure? <==> forall c: Channel :: !Contains(line, Marker(c))) &&
      (r.Success? ==> forall c: Channel :: Rank(c) < Rank(r.value.channel) ==> !Contains(line, Marker(c)))
  {
    FirstChannelFromFindsFirst(line, 0);
    match FirstChannelFrom(line, 0)
    case None =>
      assert forall c: Channel :: !Contains(line, Marker(CHANNELS[Rank(c)]));
    case Some(c) =>
      assert forall d: Channel :: Rank(d) < Rank(c) ==> !Contains(line, Marker(CHANNELS[Rank(d)]));
  }

  /** `fragments[0]` for `fragments = rest.split(':')`. */
  function Username(rest: string): string
  {
    Split(rest, ":")[0]
  }

  /** `fragments.slice(1).join('').trim()` for `fragments = rest.split(':')`. */
  function Message(rest: string): string
  {
    Trim(Concat(Split(rest, ":")[1..]))
  }

  /** `Monitor.getInfo`, with its search loop over the channel table. */
  method GetInfo(line: string) returns (r: Result<Info, ParseError>)
    ensures r == ParseLine(line)
  {
    var fragments := Split(line, " ");
    var date := fragments[0] + " " + (if |fragments| > 1 then fragments[1] else "undefined");
    var channel: Option<Channel> := None;
    var infoLine: Option<string> := None;
    var i := 0;
    while i < |CHANNELS|
      invariant 0 <= i <= |CHANNELS|
      invariant FirstChannelFrom(line, i) == FirstChannelFrom(line, 0)
      invariant channel.None? && infoLine.None?
    {
      var key := CHANNELS[i];
      var substr := Marker(key);
      if Contains(line, substr) {
        channel := Some(key);
        infoLine := Some(Split(line, substr)[1]);
        break;
      }
      i := i + 1;
    }
    if infoLine.None? {
      return Failure(ChannelLineUndefined);
    }
    fragments := Split(infoLine.value, ":");
    r := Success(Info(date, channel.value, infoLine.value, fragments[0], Trim(Concat(fragments[1..]))));
  }

  /** Each of the four markers begins with "] ", so a line that holds any
      marker holds the LOCAL one. */
  lemma MarkerImpliesLocalMarker(line: string, c: Channel)
    requires Contains(line, Marker(c))
    ensures Contains(line, Marker(LOCAL))
  {
    IndexOfFindsFirst(line, Marker(c));
    var i := IndexOf(line, Marker(c)).value;
    assert line[i..i + 2] == line[i..i + |Marker(c)|][..2];
    assert OccursAt(line, "] ", i);
    IndexOfFindsFirst(line, "] ");
  }

  /** `getInfo` fails exactly on the lines that hold no "] " at all. */
  lemma ParseFailsIffNoLocalMarker(line: string)
    ensures ParseLine(line).Failure? <==> !Contains(line, "] ")
  {
    ParseLineTakesFirstListedChannel(line);
    if Contains(line, "] ") {
      assert Contains(line, Marker(LOCAL));
    } else {
      forall c: Channel ensures !Contains(line, Marker(c)) {
        if Contains(line, Marker(c)) {
          MarkerImpliesLocalMarker(line, c);
        }
      }
    }
  }

  /** A line is LOCAL exactly when it holds "] " but none of the three more
      specific markers. */
  lemma LocalIffOnlyGenericMarker(line: string)
    ensures (ParseLine(line).Success? && ParseLine(line).value.channel == LOCAL) <==>
      (!Contains(line, "] #") && !Contains(line, "] $") && !Contains(line, "] @") && Contains(line, "] "))
  {
    ParseFailsIffNoLocalMarker(line);
    ParseLineTakesFirstListedChannel(line);
    if ParseLine(line).Success? && ParseLine(line).value.channel == LOCAL {
      assert Rank(GLOBAL) < Rank(LOCAL) && Rank(TRADE) < Rank(LOCAL) && Rank(WHISPER) < Rank(LOCAL);
    }
  }

  /** Priority is by table order, not by position in the line: a line that
      holds "] #" anywhere is GLOBAL, whatever other markers come first. */
  lemma GlobalMarkerAnywhereWins(line: string)
    requires Contains(line, "] #")
    ensures ParseLine(line).Success? && ParseLine(line).value.channel == GLOBAL
  {
    ParseLineTakesFirstListedChannel(line);
    assert Contains(line, Marker(GLOBAL));
  }

  /** `info.line` is the text strictly after the first occurrence of the
      chosen marker, up to its second occurrence or to the end of the line. */
  lemma InfoLineLiesBetweenMarkers(line: string)
    requires ParseLine(line).Success?
    ensures BetweenFirstTwo(line, Marker(ParseLine(line).value.channel), ParseLine(line).value.line)
  {
    SecondPiece(line, Marker(ParseLine(line).value.channel));
  }

  /** The username is the part of `info.line` before its first ':', kept
      as it is (not trimmed); when `info.line` has no ':' it is all of
      `info.line` and the message is empty. */
  lemma UsernameIsTextBeforeFirstColon(rest: string)
    ensures var u := Username(rest);
      ':' !in u && |u| <= |rest| && rest[..|u|] == u &&
      (|u| < |rest| ==> rest[|u|] == ':') &&
      (':' !in rest ==> u == rest && Message(rest) == "")
  {
    SplitPiecesAreFree(rest, ":");
    NoOccurrenceNoChar(Split(rest, ":")[0], ':');
    IndexOfFindsFirst(rest, ":");
    match IndexOf(rest, ":")
    case None =>
      NoOccurrenceNoChar(rest, ':');
    case Some(i) =>
      assert OccursAt(rest, ":", i);
      assert rest[i..i + 1] == ":";
  }

  /** The message is the rest of `info.line` after its first ':' with every
      ':' deleted, then trimmed: it holds no ':' and neither begins nor ends
      with whitespace. */
  lemma MessageIsRestWithoutColons(rest: string)
    ensures var m, u := Message(rest), Username(rest);
      ':' !in m && (m == [] || (!IsWhitespace(m[0]) && !IsWhitespace(m[|m| - 1]))) &&
      (|u| < |rest| ==> m == Trim(RemoveChar(rest[|u| + 1..], ':')))
  {
    var joined := Concat(Split(rest, ":")[1..]);
    JoinedIsRestAfterColonWithoutColons(rest);
    FirstPiece(rest, ":");
    TrimStripsBothEnds(joined);
    TrimAddsNothing(joined, ':');
  }

  /** The fragments after the first ':' joined with '': everything after
      that ':' with every ':' deleted, or nothing when there is no ':'. */
  lemma JoinedIsRestAfterColonWithoutColons(rest: string)
    ensures ':' !in Concat(Split(rest, ":")[1..])
    ensures match IndexOf(rest, ":")
      case None => Concat(Split(rest, ":")[1..]) == []
      case Some(i) => Concat(Split(rest, ":")[1..]) == RemoveChar(rest[i + 1..], ':')
  {
    match IndexOf(rest, ":")
    case None =>
      assert Split(rest, ":")[1..] == [];
    case Some(i) =>
      assert Split(rest, ":")[1..] == Split(rest[i + 1..], ":");
      ConcatSplitRemovesChar(rest[i + 1..], ':');
      RemoveCharDeletesOnlyC(rest[i + 1..], ':');
  }
}
