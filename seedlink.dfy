/**
 * The station-XML document handler of
 * src/main/java/gov/usgs/volcanoes/swarm/data/seedlink/SeedLinkChannelInfo.java.
 *
 * The XML parser is foreign: a document is the sequence of callbacks it makes. The handler
 * keeps the current station, network, channel, location and stream type (each possibly
 * null) and appends one entry to the channel list per qualifying stream element.
 */
module SeedLink {

  import opened Wrappers

  /** The stream type of a data channel. */
  const DATA_TYPE := "D"

  /** What ChannelUtil.addChannel records: the identity of one channel. */
  datatype StationChannel = StationChannel(station: string, network: string, channel: string, location: string)

  /** One parser callback. */
  datatype Event =
    | StartDocument
    | EndDocument
    | StartElement(tag: string, attrs: map<string, string>)
    | EndElement(tag: string)
    | Text(str: string)

  /** The handler's fields and the channel list, as one value. */
  datatype HandlerState = HandlerState(
    station: Option<string>,
    network: Option<string>,
    channel: Option<string>,
    location: Option<string>,
    streamType: Option<string>,
    channels: seq<StationChannel>)

  /** Before any callback every field is null and no channel is known. */
  function Initial(): HandlerState
  {
    HandlerState(None, None, None, None, None, [])
  }

  /** The value of attribute `key`, or null when the element does not carry it. */
  function Attr(h: map<string, string>, key: string): Option<string>
  {
    if key in h then Some(h[key]) else None
  }

  /** A stream element is emitted when its state has every identity field and type "D". */
  predicate Complete(s: HandlerState)
  {
    s.station.Some? && s.network.Some? && s.channel.Some? && s.location.Some?
      && s.streamType == Some(DATA_TYPE)
  }

  /** The entry a complete state contributes to the channel list. */
  function Entry(s: HandlerState): StationChannel
    requires Complete(s)
  {
    StationChannel(s.station.value, s.network.value, s.channel.value, s.location.value)
  }

  /** The effect of one callback on the handler's state: the specification of the handler. */
  function Step(s: HandlerState, e: Event): (r: HandlerState)
    ensures r.channels == s.channels || (Complete(r) && r.channels == s.channels + [Entry(r)])
  {
    match e
    case StartElement(tag, h) =>
      if tag == "station" then
        HandlerState(Attr(h, "name"), Attr(h, "network"), None, None, None, s.channels)
      else if tag == "stream" then
        var t := s.(channel := Attr(h, "seedname"), location := Attr(h, "location"),
                    streamType := Attr(h, "type"));
        if Complete(t) then t.(channels := t.channels + [Entry(t)]) else t
      else s
    case _ => s
  }

  /** The state after a whole sequence of callbacks, in order. */
  function Run(s: HandlerState, events: seq<Event>): HandlerState
  {
    if events == [] then s else Step(Run(s, events[..|events| - 1]), events[|events| - 1])
  }

  predicate IsStationElement(e: Event)
  {
    e.StartElement? && e.tag == "station"
  }

  // ---------------------------------------------------------------------------------------
  // Properties of the specification

  /** A station element forgets everything but the channel list, and takes station and network from its attributes. */
  lemma StationResetsFields(s: HandlerState, h: map<string, string>)
    ensures var r := Step(s, StartElement("station", h));
      && r.station == Attr(h, "name") && r.network == Attr(h, "network")
      && r.channel.None? && r.location.None? && r.streamType.None?
      && r.channels == s.channels
  {
  }

  /**
   * A stream element keeps station and network, takes channel, location and type from its
   * own attributes only, and appends exactly one entry, the current identity, precisely
   * when that identity is complete and the type is "D".
   */
  lemma StreamEmitsIffComplete(s: HandlerState, h: map<string, string>)
    ensures var r := Step(s, StartElement("stream", h));
      && r.station == s.station && r.network == s.network
      && r.channel == Attr(h, "seedname") && r.location == Attr(h, "location")
      && r.streamType == Attr(h, "type")
      && (|r.channels| == |s.channels| + 1 <==>
            s.station.Some? && s.network.Some? && "seedname" in h && "location" in h
            && "type" in h && h["type"] == DATA_TYPE)
      && (|r.channels| == |s.channels| + 1 ==>
            r.channels == s.channels + [StationChannel(s.station.value, s.network.value, h["seedname"], h["location"])])
      && (|r.channels| != |s.channels| + 1 ==> r.channels == s.channels)
  {
  }

  /** A stream without a seedname or a location is never emitted, whatever earlier streams supplied. */
  lemma StreamWithoutIdentityNotEmitted(s: HandlerState, h: map<string, string>)
    requires "seedname" !in h || "location" !in h
    ensures Step(s, StartElement("stream", h)).channels == s.channels
  {
  }

  /** Attributes other than the five the handler reads make no difference. */
  lemma OtherAttributesIgnored(s: HandlerState, tag: string, h: map<string, string>, h': map<string, string>)
    requires forall k :: k in {"name", "network", "seedname", "location", "type"} ==> Attr(h, k) == Attr(h', k)
    ensures Step(s, StartElement(tag, h)) == Step(s, StartElement(tag, h'))
  {
    assert Attr(h, "name") == Attr(h', "name");
    assert Attr(h, "network") == Attr(h', "network");
    assert Attr(h, "seedname") == Attr(h', "seedname");
    assert Attr(h, "location") == Attr(h', "location");
    assert Attr(h, "type") == Attr(h', "type");
  }

  /** Elements other than station and stream, and every other callback, change nothing. */
  lemma OtherEventsChangeNothing(s: HandlerState, e: Event)
    requires !(e.StartElement? && (e.tag == "station" || e.tag == "stream"))
    ensures Step(s, e) == s
  {
  }

  /** The channel list only grows: a run extends it and never removes or reorders an entry. */
  lemma {:induction false} ChannelsOnlyGrow(s: HandlerState, events: seq<Event>)
    ensures |s.channels| <= |Run(s, events).channels|
    ensures Run(s, events).channels[..|s.channels|] == s.channels
  {
    if events != [] {
      var prefix := events[..|events| - 1];
      ChannelsOnlyGrow(s, prefix);
    }
  }

  /** A run never adds more entries than it has callbacks. */
  lemma {:induction false} AtMostOneEntryPerEvent(s: HandlerState, events: seq<Event>)
    ensures |Run(s, events).channels| <= |s.channels| + |events|
  {
    if events != [] {
      AtMostOneEntryPerEvent(s, events[..|events| - 1]);
    }
  }

  /** Without a station element, no station is ever known and so nothing is emitted. */
  lemma {:induction false} NoStationNoChannels(events: seq<Event>)
    requires forall i :: 0 <= i < |events| ==> !IsStationElement(events[i])
    ensures Run(Initial(), events).station.None?
    ensures Run(Initial(), events).channels == []
  {
    if events != [] {
      NoStationNoChannels(events[..|events| - 1]);
    }
  }

  /** Every channel emitted in a run from the start carries the name of some station element of that run. */
  lemma {:induction false} EntriesNameSeenStations(events: seq<Event>)
    ensures forall c :: c in Run(Initial(), events).channels ==>
      exists i :: 0 <= i < |events| && IsStationElement(events[i]) && Attr(events[i].attrs, "name") == Some(c.station)
    ensures Run(Initial(), events).station.Some? ==>
      exists i :: 0 <= i < |events| && IsStationElement(events[i]) && Attr(events[i].attrs, "name") == Run(Initial(), events).station
  {
    if events != [] {
      var prefix := events[..|events| - 1];
      var last := events[|events| - 1];
      EntriesNameSeenStations(prefix);
      forall i | 0 <= i < |prefix| ensures events[i] == prefix[i] { }
      if IsStationElement(last) {
        assert Run(Initial(), events).station == Attr(last.attrs, "name");
      }
    }
  }

  // ---------------------------------------------------------------------------------------
  // The objects

  /** The channel information object: the fields the handler writes and the channel list. */
  class SeedLinkChannelInfo {
    var station: Option<string>
    var network: Option<string>
    var channel: Option<string>
    var location: Option<string>
    var streamType: Option<string>
    var channels: seq<StationChannel>

    function State(): HandlerState
      reads this
    {
      HandlerState(station, network, channel, location, streamType, channels)
    }

    /** Feeds the parsed document, callback by callback, to a new handler. */
    constructor (document: seq<Event>)
      ensures State() == Run(Initial(), document)
    {
      station, network, channel, location, streamType := None, None, None, None, None;
      channels := [];
      new;
      var handler := new SeedLinkStationXmlDocHandler(this);
      var i := 0;
      while i < |document|
        invariant 0 <= i <= |document|
        invariant handler.info == this
        invariant State() == Run(Initial(), document[..i])
      {
        assert document[..i + 1][..i] == document[..i];
        var e := document[i];
        match e {
          case StartDocument => handler.StartDocument();
          case EndDocument => handler.EndDocument();
          case StartElement(tag, h) => handler.StartElement(tag, h);
          case EndElement(tag) => handler.EndElement(tag);
          case Text(str) => handler.Text(str);
        }
        i := i + 1;
      }
      assert document[..i] == document;
    }
  }

  /** The parser callbacks, writing into the channel information object they belong to. */
  class SeedLinkStationXmlDocHandler {
    const info: SeedLinkChannelInfo

    constructor (info: SeedLinkChannelInfo)
      ensures this.info == info
    {
      this.info := info;
    }

    method ClearChannel()
      modifies info
      ensures info.State() == old(info.State()).(channel := None, location := None, streamType := None)
    {
      info.channel, info.location, info.streamType := None, None, None;
    }

    method ClearStation()
      modifies info
      ensures info.State() == HandlerState(None, None, None, None, None, old(info.channels))
    {
      info.station, info.network := None, None;
      ClearChannel();
    }

    method EndDocument()
      ensures unchanged(info)
    {
    }

    method EndElement(tag: string)
      ensures unchanged(info)
    {
    }

    method StartDocument()
      ensures unchanged(info)
    {
    }

    method Text(str: string)
      ensures unchanged(info)
    {
    }

    /** The attribute loop of a station element: name and network are taken, every other attribute is skipped. */
    method ReadStationAttributes(h: map<string, string>)
      requires info.State() == HandlerState(None, None, None, None, None, info.channels)
      modifies info
      ensures info.State() == HandlerState(Attr(h, "name"), Attr(h, "network"), None, None, None, old(info.channels))
    {
      var keys := h.Keys;
      while keys != {}
        invariant keys <= h.Keys
        invariant info.station == if "name" in h && "name" !in keys then Some(h["name"]) else None
        invariant info.network == if "network" in h && "network" !in keys then Some(h["network"]) else None
        invariant info.channel.None? && info.location.None? && info.streamType.None?
        invariant info.channels == old(info.channels)
        decreases keys
      {
        var key :| key in keys;
        var val := h[key];
        if key == "name" {
          info.station := Some(val);
        } else if key == "network" {
          info.network := Some(val);
        }
        keys := keys - {key};
      }
    }

    /** The attribute loop of a stream element: seedname, location and type are taken, every other attribute is skipped. */
    method ReadStreamAttributes(h: map<string, string>)
      requires info.channel.None? && info.location.None? && info.streamType.None?
      modifies info
      ensures info.State() == old(info.State()).(channel := Attr(h, "seedname"), location := Attr(h, "location"),
                                                 streamType := Attr(h, "type"))
    {
      var keys := h.Keys;
      while keys != {}
        invariant keys <= h.Keys
        invariant info.channel == if "seedname" in h && "seedname" !in keys then Some(h["seedname"]) else None
        invariant info.location == if "location" in h && "location" !in keys then Some(h["location"]) else None
        invariant info.streamType == if "type" in h && "type" !in keys then Some(h["type"]) else None
        invariant info.station == old(info.station) && info.network == old(info.network)
        invariant info.channels == old(info.channels)
        decreases keys
      {
        var key :| key in keys;
        var val := h[key];
        if key == "seedname" {
          info.channel := Some(val);
        } else if key == "location" {
          info.location := Some(val);
        } else if key == "type" {
          info.streamType := Some(val);
        }
        keys := keys - {key};
      }
    }

    /** Resets fields and reads the attributes (in the map's key order, which does not matter). */
    method StartElement(tag: string, h: map<string, string>)
      modifies info
      ensures info.State() == Step(old(info.State()), Event.StartElement(tag, h))
    {
      if tag == "station" {
        ClearStation();
        ReadStationAttributes(h);
      } else if tag == "stream" {
        ClearChannel();
        ReadStreamAttributes(h);
        if info.station.Some? && info.network.Some? && info.channel.Some?
          && info.location.Some? && info.streamType == Some(DATA_TYPE) {
          info.channels := info.channels + [StationChannel(info.station.value, info.network.value,
                                                           info.channel.value, info.location.value)];
        }
      }
    }
  }
}
