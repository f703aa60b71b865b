# Swarm: gulper registry, SeedLink station handler, channel tree

This project models three pieces of sequential logic from Swarm, the USGS seismic
waveform viewer, and proves what each promises.

* **The gulper registry** (`gulpers.dfy`, module `Gulpers`). `GulperList` is a table of
  active fetch workers ("gulpers") keyed by a caller's string.
  * A request for a time window goes to the gulper already registered under the key.
  * With no gulper registered, a window narrower than `Gulper.GULP_SIZE` becomes one
    inline `getWave` call on the data source.
  * A wider window creates a new gulper and registers it.
  * `killGulper` asks a registered gulper to stop. `removeGulper` deletes the entry for
    a gulper's key.
  * `getInstance` creates the single registry on first use.

  The `Gulper` class and the data source are collaborators whose code is not modelled.
  Each is an object that records every call it receives in a ghost log.
* **The SeedLink station-XML handler** (`seedlink.dfy`, module `SeedLink`). The XML
  parser delivers a document as a sequence of callbacks. The handler object keeps:
  * the current station, network, channel, location and stream type, each possibly null;
  * the list of channels found so far.

  A `station` element resets every field and then reads `name` and `network`. A `stream`
  element resets the channel fields, reads `seedname`, `location` and `type`, and appends
  one entry when the identity is complete and the type is `"D"`. The pure function
  `Step` specifies one callback and `Run` specifies a whole document. The handler's
  methods, and the constructor that feeds it a document, are proved against them.
* **Channel selection and grouping** (`channel_panel.dfy`, module `Channels`, with
  `string_order.dfy` for Java's string order).
  * `getSelectedLeaves` flattens the selected tree nodes into distinct leaf names. It
    keeps them in first-occurrence order and truncates the list to 500.
  * `populateTree` builds the helicorder tree. Under `root` comes `All`, holding one leaf
    per item. Then comes one node per group in ascending key order, each holding its
    channels.

  Both are written as loops. Each is proved against a pure specification:
  `SelectedLeaves` for the first, `PopulatedTree` for the second.

`wrappers.dfy` holds the `Option` type, which models Java's `null`.

Three details of the code shape the contracts:
* `requestGulper` tests for an existing gulper before it tests the window size. So a
  small window for a key with a live gulper goes to that gulper's `update`, never to an
  inline fetch.
* The listener passed with such a request is not used.
* `removeGulper` deletes whatever gulper occupies the key, with no identity check.

## Model

| member | source | states |
|---|---|---|
| Gulpers.GulperList.RequestGulper | gov/usgs/swarm/data/GulperList.java:24-46 | An existing gulper for the key takes priority whatever the window: it gets exactly one `update(t1, t2)`, is returned, the table is unchanged and no inline fetch happens. With no gulper and `t2 - t1 < GULP_SIZE`: exactly one `getWave(ch, t1, t2)`, null returned, table unchanged. Otherwise a fresh gulper built from the arguments is stored under the key and returned. No existing entry is ever replaced, and other keys' gulpers receive no call. |
| Gulpers.GulperList.KillGulper | gov/usgs/swarm/data/GulperList.java:48-53 | The table is never modified. The registered gulper, if any, receives exactly one `kill()`. Nothing happens for an absent key, and no other gulper receives a call. |
| Gulpers.GulperList.RemoveGulper | gov/usgs/swarm/data/GulperList.java:59-62 | Removes the entry for `g.getKey()`, whichever gulper occupies it. Every other entry is unchanged. |
| Gulpers.GulperListInstance.GetInstance | gov/usgs/swarm/data/GulperList.java:16-22 | The first call creates an empty registry and stores it. Every later call returns that same registry. The registry handed back is always well formed, so every later caller can use it. |
| Gulpers.GulperList.constructor | gov/usgs/swarm/data/GulperList.java:11-14 | A new registry has an empty table. |
| SeedLink.Step | src/main/java/gov/usgs/volcanoes/swarm/data/seedlink/SeedLinkChannelInfo.java:67-96 | One callback leaves the channel list alone, or appends exactly the entry of the resulting state, which is then complete. |
| SeedLink.SeedLinkStationXmlDocHandler.StartElement | src/main/java/gov/usgs/volcanoes/swarm/data/seedlink/SeedLinkChannelInfo.java:67-96 | The object's new fields and channel list are exactly what `Step` gives for the element from the old state. |
| SeedLink.SeedLinkStationXmlDocHandler.ReadStationAttributes | src/main/java/gov/usgs/volcanoes/swarm/data/seedlink/SeedLinkChannelInfo.java:71-78 | After the attribute loop, station is the `name` attribute and network the `network` attribute (null when absent), whatever the key order. Every other attribute is skipped. |
| SeedLink.SeedLinkStationXmlDocHandler.ReadStreamAttributes | src/main/java/gov/usgs/volcanoes/swarm/data/seedlink/SeedLinkChannelInfo.java:81-90 | After the attribute loop, channel, location and type are the `seedname`, `location` and `type` attributes (null when absent). Station, network and the channel list are untouched. |
| SeedLink.SeedLinkStationXmlDocHandler.ClearChannel | src/main/java/gov/usgs/volcanoes/swarm/data/seedlink/SeedLinkChannelInfo.java:26-30 | Channel, location and type become null. Nothing else changes. |
| SeedLink.SeedLinkStationXmlDocHandler.ClearStation | src/main/java/gov/usgs/volcanoes/swarm/data/seedlink/SeedLinkChannelInfo.java:32-36 | All five fields become null. The channel list is kept. |
| SeedLink.SeedLinkStationXmlDocHandler.EndDocument | src/main/java/gov/usgs/volcanoes/swarm/data/seedlink/SeedLinkChannelInfo.java:43 | Changes nothing. |
| SeedLink.SeedLinkStationXmlDocHandler.EndElement | src/main/java/gov/usgs/volcanoes/swarm/data/seedlink/SeedLinkChannelInfo.java:51 | Changes nothing. |
| SeedLink.SeedLinkStationXmlDocHandler.StartDocument | src/main/java/gov/usgs/volcanoes/swarm/data/seedlink/SeedLinkChannelInfo.java:58 | Changes nothing. |
| SeedLink.SeedLinkStationXmlDocHandler.Text | src/main/java/gov/usgs/volcanoes/swarm/data/seedlink/SeedLinkChannelInfo.java:104 | Changes nothing. |
| SeedLink.SeedLinkChannelInfo.constructor | src/main/java/gov/usgs/volcanoes/swarm/data/seedlink/SeedLinkChannelInfo.java:119-136 | All fields start null with no channels. Parsing a whole document one callback at a time leaves exactly `Run(Initial(), document)`. |
| SeedLink.StationResetsFields | src/main/java/gov/usgs/volcanoes/swarm/data/seedlink/SeedLinkChannelInfo.java:69-78 | A station element clears all five fields, then takes station from `name` and network from `network`. The channel list is kept. |
| SeedLink.StreamEmitsIffComplete | src/main/java/gov/usgs/volcanoes/swarm/data/seedlink/SeedLinkChannelInfo.java:79-95 | A stream element keeps station and network and takes the other three fields from its own attributes. It appends an entry if and only if station, network, `seedname` and `location` are all present and `type` is `"D"`. It then appends exactly one entry, the current identity; otherwise the list is unchanged. |
| SeedLink.StreamWithoutIdentityNotEmitted | src/main/java/gov/usgs/volcanoes/swarm/data/seedlink/SeedLinkChannelInfo.java:79-92 | A stream lacking `seedname` or `location` emits nothing, whatever earlier streams supplied. |
| SeedLink.OtherAttributesIgnored | src/main/java/gov/usgs/volcanoes/swarm/data/seedlink/SeedLinkChannelInfo.java:71-90 | Two elements that agree on the five attributes the handler reads have the same effect. |
| SeedLink.OtherEventsChangeNothing | src/main/java/gov/usgs/volcanoes/swarm/data/seedlink/SeedLinkChannelInfo.java:43-104 | Tags other than `station` and `stream`, end tags, text and the document callbacks change no state. |
| SeedLink.ChannelsOnlyGrow | src/main/java/gov/usgs/volcanoes/swarm/data/seedlink/SeedLinkChannelInfo.java:91-94 | Over any sequence of callbacks the old channel list stays a prefix of the new one: nothing is removed or reordered. |
| SeedLink.AtMostOneEntryPerEvent | src/main/java/gov/usgs/volcanoes/swarm/data/seedlink/SeedLinkChannelInfo.java:91-94 | A run adds at most one entry per callback. |
| SeedLink.NoStationNoChannels | src/main/java/gov/usgs/volcanoes/swarm/data/seedlink/SeedLinkChannelInfo.java:119-123 | A document with no station element never knows a station and emits no channel, since the fields start null. |
| SeedLink.EntriesNameSeenStations | src/main/java/gov/usgs/volcanoes/swarm/data/seedlink/SeedLinkChannelInfo.java:69-94 | Every emitted entry names a station given by some station element of the document. |
| Channels.GetSelectedLeaves | gov/usgs/swarm/ChannelPanel.java:234-272 | A null selection gives null. Otherwise the result is exactly `SelectedLeaves` of the selection: no name twice, at most 500 names, each named by a selected node. |
| Channels.AddLeafChildren | gov/usgs/swarm/ChannelPanel.java:251-257 | Adding a non-leaf's children keeps the list equal to the first-occurrence de-duplication of all candidates so far, extended by the node's leaf children. |
| Channels.IndexOf | gov/usgs/swarm/ChannelPanel.java:246-247 | The position of the first occurrence; it is inside the sequence exactly when the name occurs. |
| Channels.LeafChildNamesExact | gov/usgs/swarm/ChannelPanel.java:251-257 | A name comes from a node's children exactly when it names one of its leaf children; grandchildren never count. |
| Channels.PathLeavesExact | gov/usgs/swarm/ChannelPanel.java:243-258 | A selected node contributes exactly its own name when it is a leaf, otherwise the names of its leaf children. |
| Channels.CandidatesExact | gov/usgs/swarm/ChannelPanel.java:240-258 | A name is a candidate exactly when some selected node names it. |
| Channels.DedupSameElements | gov/usgs/swarm/ChannelPanel.java:246-256 | The `contains` test keeps every candidate name and adds no other. |
| Channels.DedupNoDuplicates | gov/usgs/swarm/ChannelPanel.java:246-256 | The `contains` test leaves no name twice. |
| Channels.DedupFirstOccurrenceOrder | gov/usgs/swarm/ChannelPanel.java:240-258 | The de-duplicated names are in the order of their first occurrence among the candidates. |
| Channels.SelectedLeavesTruncation | gov/usgs/swarm/ChannelPanel.java:260-271 | The result has at most 500 names. It is all the distinct names when they fit, and exactly the first 500 otherwise. |
| Channels.SelectedLeavesCorrect | gov/usgs/swarm/ChannelPanel.java:234-272 | The result has no duplicates and at most 500 names. Every name is named by a selected node. The names follow first-occurrence order. |
| Channels.BuildTree | gov/usgs/swarm/ChannelPanel.java:283-320 | The built tree is `root`, whose first child is `All` holding one leaf per item in item order. Then come the group nodes in strictly ascending name order, one for every group some item lists, each holding its members' leaves. |
| Channels.AddToGroups | gov/usgs/swarm/ChannelPanel.java:297-310 | Each group of `c`'s list gets a node if it had none. Each group node gains one leaf `c` per listing of the group; all other nodes are unchanged. |
| Channels.NodesInKeyOrder | gov/usgs/swarm/ChannelPanel.java:315-320 | Walking the TreeMap's keys gives its nodes in strictly ascending key order, each node once. |
| Channels.ChannelPanel.PopulateTree | gov/usgs/swarm/ChannelPanel.java:274-328 | With null items nothing changes. Otherwise the source is recorded and the tree is exactly the populated tree of the items. |
| Channels.ChannelPanel.constructor | gov/usgs/swarm/ChannelPanel.java:80-116 | A new panel has no source and an empty `root` tree. |
| Channels.MembersExact | gov/usgs/swarm/ChannelPanel.java:295-310 | A channel is in group `g` exactly when it is an item whose group list contains `g`. |
| Channels.AllGroupsNonEmpty | gov/usgs/swarm/ChannelPanel.java:300-309 | A group gets a node exactly when it has at least one member, so no group node is empty. |
| Channels.CountPositive | gov/usgs/swarm/ChannelPanel.java:300-309 | A group is listed at least once exactly when it occurs in the list. |
| Channels.GroupNamesAscending | gov/usgs/swarm/ChannelPanel.java:315-320 | The group nodes' names are strictly ascending and are exactly the groups. |
| Channels.PopulatedTreeUnique | gov/usgs/swarm/ChannelPanel.java:283-320 | The description of the populated tree admits exactly one tree. |
| Channels.LeavesAppend | gov/usgs/swarm/ChannelPanel.java:308-309 | Leaves of a concatenation are the concatenated leaves. |
| StringOrder.LexLessIrreflexive | gov/usgs/swarm/ChannelPanel.java:315-317 | No key sorts before itself in the TreeMap's order. |
| StringOrder.LexLessTransitive | gov/usgs/swarm/ChannelPanel.java:315-317 | The TreeMap's key order is transitive. |
| StringOrder.LexLessTotal | gov/usgs/swarm/ChannelPanel.java:315-317 | Of two distinct keys, one sorts first. |
| StringOrder.LexLessAsymmetric | gov/usgs/swarm/ChannelPanel.java:315-317 | Two keys never each sort before the other. |
| StringOrder.LeastExists | gov/usgs/swarm/ChannelPanel.java:315-317 | A non-empty key set has a least key, which the key-set iterator yields next. |
| StringOrder.AscendingUnique | gov/usgs/swarm/ChannelPanel.java:315-320 | Two strictly ascending sequences with the same elements are equal, so the key order fixes the group nodes' order. |

## Left out

- Gulper: its fetching, chunking and thread are not modelled. A gulper is a handle that logs its `update` and `kill` calls; `Gulper.GULP_SIZE` is a positive constant whose value is left open.
- The `synchronized` locking of GulperList and the thread-safety of the singleton: the registry is a sequential object.
- `SeismicDataSource.getWave`: the returned `Wave` is not modelled. The call is recorded in a ghost log.
- The `System.out.println` diagnostics of `requestGulper`.
- Times are Java `double`s; they are modelled as reals, so rounding of `t2 - t1` and NaN are not modelled.
- The static field of `getInstance` is modelled as the field of a `GulperListInstance` object, because Dafny has no mutable static fields.
- SimpleXmlParser is not part of this model. A document is given as its sequence of callbacks, and the handler is fed those callbacks in order.
- `ChannelUtil.addChannel` and `ChannelUtil.getGroups` are not part of this model. `addChannel` is modelled as appending the `(station, network, channel, location)` tuple to the list. The string it actually stores, and any duplicate check it might make, are not modelled.
- The latitude and longitude fields (always NaN), the data-source field and the getters of SeedLinkChannelInfo.
- The handler's order of reading attribute keys: Java iterates the map's key set; the model picks keys in an arbitrary order. The proofs show the result does not depend on it.
- Everything Swing in ChannelPanel: listeners, buttons, icons and borders, `SwingUtilities.invokeLater` (the tree is rebuilt at once), the title border, `repaint`, and `DefaultTreeModel`/`JTree` (the tree is the `heliTree` field of type `TreeNode`, and `populateTree`'s `tree` argument is always that field).
- The JOptionPane dialog shown when more than 500 channels are selected; only the truncation it accompanies is modelled. Swarm.java is not part of this model.
- `ConfigFile.getList` is modelled as an optional map from channel to its list of groups. An absent entry, or a missing file, gives no groups.
- A selected TreePath is modelled as its last component, and items as their `toString()` values.
- GetSelectedLeaves: returns the filled array's contents as a sequence rather than the `String[]` object itself.
- StringOrder.LexLess: it orders strings by Dafny character codes. Java's `String.compareTo` compares UTF-16 code units, so the two orders differ for characters outside the Basic Multilingual Plane.
