/** The `/fare` slash-command handler (`handle_fare`): it acknowledges the
    command, strips its text, splits it at the first `" to "` into a pickup
    and a dropoff address, and sends exactly one reply. The `ack` and
    `respond` callbacks are modelled as the events of a returned trace. */
module Fare {
  import opened Wrappers
  import opened Text

  const Delimiter: string := " to "
  const FormatGuidance: string := "Format: `/fare pickup address to dropoff address`"
  const MissingEndpointText: string := "I need both a pickup and a dropoff address."

  /** Who sees a reply: only the requester, or the whole channel. */
  datatype ResponseType = Ephemeral | InChannel {
    /** The `response_type` value sent to the chat platform. */
    function WireName(): (name: string)
      ensures name == "ephemeral" <==> Ephemeral?
      ensures name == "in_channel" <==> InChannel?
    {
      match this
      case Ephemeral => "ephemeral"
      case InChannel => "in_channel"
    }
  }

  datatype Reply = Reply(responseType: ResponseType, text: string)

  /** One call of a callback: `ack()` or `respond(...)`. */
  datatype Event = Ack | Respond(reply: Reply)

  /** The fields of the slash-command payload; a field may hold `None`. */
  type Command = map<string, Option<string>>

  /** How the command text was understood. */
  datatype Parsed = MalformedCommand | MissingEndpoint | Ride(pickup: string, dropoff: string)

  /** `command.get("text") or ""`: a missing or `None` text reads as empty. */
  function CommandText(command: Command): (text: string)
    ensures "text" !in command || command["text"].None? ==> text == ""
    ensures "text" in command && command["text"].Some? ==> text == command["text"].value
  {
    if "text" in command then command["text"].GetOr("") else ""
  }

  /** The broadcast summary of a ride: `*From:* ` and the pickup, then on a
      second line `*To:* ` and the dropoff. */
  function Summary(pickup: string, dropoff: string): (text: string)
    ensures |text| == 8 + |pickup| + 7 + |dropoff|
    ensures text[..8] == "*From:* " && text[8..8 + |pickup|] == pickup
    ensures text[8 + |pickup|..15 + |pickup|] == "\n*To:* " && text[15 + |pickup|..] == dropoff
  {
    "*From:* " + pickup + "\n*To:* " + dropoff
  }

  /** A summary names its ride unambiguously when the pickup is on one line. */
  lemma SummaryDeterminesRide(p1: string, d1: string, p2: string, d2: string)
    requires '\n' !in p1 && '\n' !in p2
    requires Summary(p1, d1) == Summary(p2, d2)
    ensures p1 == p2 && d1 == d2
  {
    var t := Summary(p1, d1);
    // The first line break after `*From:* ` ends the pickup.
    forall k | 8 <= k < 8 + |p1| ensures t[k] != '\n' {
      assert t[k] == t[8..8 + |p1|][k - 8];
    }
    forall k | 8 <= k < 8 + |p2| ensures t[k] != '\n' {
      assert t[k] == t[8..8 + |p2|][k - 8];
    }
    assert t[8 + |p1|] == t[8 + |p1|..15 + |p1|][0];
    assert t[8 + |p2|] == t[8 + |p2|..15 + |p2|][0];
    assert |p1| == |p2|;
  }

  /** The reply depends on the payload only through its text, with a missing
      or `None` text read as the empty one. */
  lemma ReplyDependsOnTextOnly(command: Command)
    ensures ReplyTo(command) == ReplyTo(map["text" := Some(CommandText(command))])
    ensures "text" !in command ==> ReplyTo(command) == ReplyTo(map["text" := None])
  {
  }

  /** Strip the text, require the delimiter, split at its first occurrence
      and strip both parts. */
  function Parse(raw: string): (p: Parsed)
    ensures p.MalformedCommand? <==> !Contains(Strip(raw), Delimiter)
    ensures p.Ride? ==> p.pickup != [] && p.dropoff != []
    ensures p.Ride? ==> IsStripped(p.pickup) && IsStripped(p.dropoff)
  {
    var text := Strip(raw);
    if !Contains(text, Delimiter) then MalformedCommand
    else
      var parts := SplitOnce(text, Delimiter);
      var pickup := Strip(parts[0]);
      var dropoff := Strip(parts[1]);
      if pickup == [] || dropoff == [] then MissingEndpoint
      else Ride(pickup, dropoff)
  }

  /** The one reply sent for each outcome of parsing. */
  function ReplyFor(p: Parsed): (r: Reply)
    ensures r.responseType == Ephemeral <==> !p.Ride?
  {
    match p
    case MalformedCommand => Reply(Ephemeral, FormatGuidance)
    case MissingEndpoint => Reply(Ephemeral, MissingEndpointText)
    case Ride(pickup, dropoff) => Reply(InChannel, Summary(pickup, dropoff))
  }

  /** `handle_fare`: acknowledge first, then send exactly one reply,
      whichever branch is taken. */
  function HandleFare(command: Command): (trace: seq<Event>)
    ensures |trace| == 2
    ensures trace[0] == Ack
    ensures trace[1].Respond?
  {
    [Ack, Respond(ReplyFor(Parse(CommandText(command))))]
  }

  /** The reply a command gets. */
  function ReplyTo(command: Command): Reply {
    HandleFare(command)[1].reply
  }

  /** A delimiter found in the stripped text always has non-blank text on
      both sides, so parsing never reports a missing endpoint. */
  lemma ParseNeverMissingEndpoint(raw: string)
    ensures !Parse(raw).MissingEndpoint?
  {
    var text := Strip(raw);
    if Contains(text, Delimiter) {
      var parts := SplitOnce(text, Delimiter);
      var i := |parts[0]|;
      assert parts[0] == text[..i] && parts[1] == text[i + |Delimiter|..] by {
        assert text == parts[0] + Delimiter + parts[1];
      }
      SeparatorInsideStripped(text, Delimiter, i);
    }
  }

  /** When the stripped text contains the delimiter, the ride is the two
      stripped parts around its first occurrence. */
  lemma ParseSplitsAtFirst(raw: string, i: nat)
    requires IsFirstOccurrence(Strip(raw), Delimiter, i)
    ensures var text := Strip(raw);
      Parse(raw) == Ride(Strip(text[..i]), Strip(text[i + |Delimiter|..]))
  {
    var text := Strip(raw);
    var parts := SplitOnce(text, Delimiter);
    assert |parts| == 2;
    assert |parts[0]| == i;
    assert text == parts[0] + Delimiter + parts[1];
    assert parts[0] == text[..i] && parts[1] == text[i + |Delimiter|..];
    ParseNeverMissingEndpoint(raw);
  }

  /** A missing, `None` or blank text gets the format guidance. */
  lemma BlankTextGetsGuidance(command: Command)
    requires "text" !in command || command["text"].None? || AllWhitespace(command["text"].value)
    ensures ReplyTo(command) == Reply(Ephemeral, FormatGuidance)
  {
    assert AllWhitespace(CommandText(command));
    assert Strip(CommandText(command)) == [];
  }

  /** The format guidance is sent exactly when the stripped text lacks the
      delimiter. */
  lemma GuidanceIffNoDelimiter(command: Command)
    ensures ReplyTo(command) == Reply(Ephemeral, FormatGuidance)
        <==> !Contains(Strip(CommandText(command)), Delimiter)
  {
    var p := Parse(CommandText(command));
    assert ReplyTo(command) == ReplyFor(p);
    ParseNeverMissingEndpoint(CommandText(command));
    GuidanceOnlyForMalformed(p);
  }

  /** Of the outcomes parsing can give, only a malformed command gets the
      format guidance. */
  lemma GuidanceOnlyForMalformed(p: Parsed)
    requires !p.MissingEndpoint?
    ensures ReplyFor(p) == Reply(Ephemeral, FormatGuidance) <==> p.MalformedCommand?
  {
    if p.Ride? {
      assert ReplyFor(p).responseType == InChannel;
    }
  }

  /** The reply is broadcast exactly when the stripped text contains the
      delimiter; every other reply is shown to the requester only. */
  lemma BroadcastIffDelimiter(command: Command)
    ensures ReplyTo(command).responseType == InChannel
        <==> Contains(Strip(CommandText(command)), Delimiter)
    ensures ReplyTo(command).responseType.WireName() == "in_channel"
        <==> Contains(Strip(CommandText(command)), Delimiter)
    ensures ReplyTo(command).responseType.WireName() == "ephemeral"
        <==> !Contains(Strip(CommandText(command)), Delimiter)
  {
    ParseNeverMissingEndpoint(CommandText(command));
  }

  /** The missing-endpoint reply is never sent. */
  lemma MissingEndpointNeverSent(command: Command)
    ensures ReplyTo(command).text != MissingEndpointText
  {
    var p := Parse(CommandText(command));
    assert ReplyTo(command) == ReplyFor(p);
    ParseNeverMissingEndpoint(CommandText(command));
    if p.Ride? {
      assert Summary(p.pickup, p.dropoff)[0] != MissingEndpointText[0];
    } else {
      assert |FormatGuidance| != |MissingEndpointText|;
    }
  }

  /** When the stripped text contains the delimiter, the reply is broadcast
      and names the stripped, non-empty parts around its first occurrence. */
  lemma DelimiterGetsSummary(command: Command, i: nat)
    requires IsFirstOccurrence(Strip(CommandText(command)), Delimiter, i)
    ensures var text := Strip(CommandText(command));
      var pickup, dropoff := Strip(text[..i]), Strip(text[i + |Delimiter|..]);
      && pickup != [] && dropoff != []
      && ReplyTo(command) == Reply(InChannel, "*From:* " + pickup + "\n*To:* " + dropoff)
      && ReplyTo(command).responseType.WireName() == "in_channel"
  {
    ParseSplitsAtFirst(CommandText(command), i);
  }

  /** Writing a ride as `pickup to dropoff` and parsing it gives the ride
      back, provided the delimiter does not occur earlier. */
  lemma ParseJoined(pickup: string, dropoff: string)
    requires pickup != [] && IsStripped(pickup)
    requires dropoff != [] && IsStripped(dropoff)
    requires forall j: nat | j < |pickup| :: !OccursAt(pickup + Delimiter + dropoff, Delimiter, j)
    ensures Parse(pickup + Delimiter + dropoff) == Ride(pickup, dropoff)
  {
    var text := pickup + Delimiter + dropoff;
    var i := |pickup|;
    assert IsStripped(text) by {
      assert text[0] == pickup[0];
      assert text[|text| - 1] == dropoff[|dropoff| - 1];
    }
    StripStripped(text);
    assert text[..i] == pickup;
    assert text[i..i + |Delimiter|] == Delimiter;
    assert text[i + |Delimiter|..] == dropoff;
    ParseSplitsAtFirst(text, i);
    StripStripped(pickup);
    StripStripped(dropoff);
  }

  /** `"A to B to C"` splits at the first delimiter. */
  lemma FirstMatchExample()
    ensures Parse("A to B to C") == Ride("A", "B to C")
  {
    var s := "A to B to C";
    assert s == "A" + Delimiter + "B to C";
    assert !OccursAt(s, Delimiter, 0) by { assert s[0] != ' '; }
    ParseJoined("A", "B to C");
  }

  /** The usage example of the handler's documentation. */
  lemma UsageExample()
    ensures Parse("45 2nd St San Francisco to SFO") == Ride("45 2nd St San Francisco", "SFO")
  {
    var s := "45 2nd St San Francisco to SFO";
    assert s == "45 2nd St San Francisco" + Delimiter + "SFO";
    UsageTextHasNoEarlySpaceT(s);
    NoOccurrenceBefore(s, Delimiter, 23);
    ParseJoined("45 2nd St San Francisco", "SFO");
  }

  /** No space before index 23 of the usage example is followed by a 't'. */
  lemma UsageTextHasNoEarlySpaceT(s: string)
    requires s == "45 2nd St San Francisco to SFO"
    ensures forall j | 0 <= j < 23 :: s[j] != ' ' || s[j + 1] != 't'
  {
    forall j | 0 <= j < 12 ensures s[j] != ' ' || s[j + 1] != 't' {
      assert || j == 0 || j == 1 || j == 2 || j == 3 || j == 4 || j == 5
             || j == 6 || j == 7 || j == 8 || j == 9 || j == 10 || j == 11;
    }
    forall j | 12 <= j < 23 ensures s[j] != ' ' || s[j + 1] != 't' {
      assert || j == 12 || j == 13 || j == 14 || j == 15 || j == 16 || j == 17
             || j == 18 || j == 19 || j == 20 || j == 21 || j == 22;
    }
  }

  /** `"  to  "` strips to `"to"`, which lacks the delimiter, so it gets the
      format guidance rather than the missing-endpoint reply. */
  lemma BlankSidesExample()
    ensures Parse("  to  ") == MalformedCommand
    ensures ReplyTo(map["text" := Some("  to  ")]) == Reply(Ephemeral, FormatGuidance)
  {
    assert Strip("  to  ") == "to" by {
      assert IsTrimOf("to", "  to  ", 2);
      StripUnique("  to  ", "to", 2);
    }
  }
}
