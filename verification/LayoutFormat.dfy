/** The layout file, key by key: what is read from any JSON object, whether or not the program wrote
    it, with the value that each missing or ill-typed entry gets. */
module LayoutFormat {
  import opened Options
  import opened JsonValues
  import opened Layouts
  import opened Encoding
  import opened Decoding
  import opened LayoutFiles

  predicate ReadsReal(obj: Fields, key: string, fallback: real, value: real) {
    if key in obj && obj[key].Number? then obj[key] == Number(value) else value == fallback
  }

  predicate ReadsBool(obj: Fields, key: string, fallback: bool, value: bool) {
    if key in obj && obj[key].Bool? then obj[key] == Bool(value) else value == fallback
  }

  predicate ReadsString(obj: Fields, key: string, value: string) {
    if key in obj && obj[key].String? then obj[key] == String(value) else value == ""
  }

  predicate HasInt(obj: Fields, key: string, i: Int32) {
    key in obj && obj[key] == Number(i as real)
  }

  /** Only a whole number in the range of an int is read. */
  ghost predicate ReadsInt(obj: Fields, key: string, fallback: Int32, value: Int32) {
    if exists i: Int32 :: HasInt(obj, key, i) then HasInt(obj, key, value) else value == fallback
  }

  predicate HasObject(obj: Fields, key: string, entry: Fields) {
    key in obj && obj[key] == Object(entry)
  }

  predicate HasString(obj: Fields, key: string, text: string) {
    key in obj && obj[key] == String(text)
  }

  lemma IntIsRead(obj: Fields, key: string, fallback: Int32)
    ensures ReadsInt(obj, key, fallback, ToInt(Value(obj, key), fallback))
  {
    var j := Value(obj, key);
    if i: Int32 :| HasInt(obj, key, i) {
      assert (i as real).Floor == i;
    }
    if j.Number? && j.n == j.n.Floor as real && -0x8000_0000 <= j.n.Floor < 0x8000_0000 {
      var i: Int32 := j.n.Floor;
      assert HasInt(obj, key, i);
    }
  }

  /** What a split is read from. An irc channel's name comes under "channel", others' under "name". */
  lemma SplitFormat(obj: Fields, data: Fields)
    requires if "data" in obj && obj["data"].Object? then obj["data"] == Object(data) else data == map[]
    ensures var d := SplitNodeOf(Object(obj));
      && d.SplitNodeDescriptor?
      && ReadsReal(obj, "flexh", 1.0, d.flexH) && ReadsReal(obj, "flexv", 1.0, d.flexV)
      && ReadsBool(obj, "moderationMode", false, d.split.moderationMode)
      && ReadsString(data, "type", d.split.type_) && ReadsInt(data, "server", -1, d.split.server)
      && ReadsString(data, if "channel" in data then "channel" else "name", d.split.channelName)
  {
    IntIsRead(data, "server", -1);
  }

  lemma FiltersFormat(obj: Fields)
    ensures var filters := SplitNodeOf(Object(obj)).split.filters;
      if "filters" in obj && obj["filters"].Array? then
        && |filters| == |obj["filters"].a|
        && forall i :: 0 <= i < |filters| ==>
             filters[i].text == if obj["filters"].a[i].String? then obj["filters"].a[i].s else ""
      else filters == []
  {
  }

  /** What a container is read from; its items are splits when they say so, otherwise containers. */
  lemma ContainerFormat(obj: Fields)
    ensures var d := ContainerOf(Object(obj));
      && d.ContainerNodeDescriptor?
      && ReadsReal(obj, "flexh", 1.0, d.flexH) && ReadsReal(obj, "flexv", 1.0, d.flexV)
      && (d.vertical <==> HasString(obj, "type", "vertical"))
      && (if "items" in obj && obj["items"].Array? then
            && |d.items| == |obj["items"].a|
            && forall i :: 0 <= i < |d.items| ==> d.items[i] == ItemOf(obj["items"].a[i])
          else d.items == [])
  {
  }

  function ItemOf(item: Json): NodeDescriptor {
    if item.Object? && HasString(item.o, "type", "split") then SplitNodeOf(item) else ContainerOf(item)
  }

  /** What a tab is read from. Highlights are on and the tab is not selected unless it says so; a
      root node is read from a split or container, and from nothing else. */
  lemma TabFormat(obj: Fields)
    ensures var t := TabOf(Object(obj));
      && ReadsString(obj, "title", t.customTitle)
      && ReadsBool(obj, "selected", false, t.selected)
      && ReadsBool(obj, "highlightsEnabled", true, t.highlightsEnabled)
      && (!("splits2" in obj && obj["splits2"].Object?) ==> t.rootNode == None)
  {
  }

  lemma RootFormat(obj: Fields, root: Fields)
    requires HasObject(obj, "splits2", root)
    ensures TabOf(Object(obj)).rootNode ==
      if HasString(root, "type", "split") then Some(SplitNodeOf(Object(root)))
      else if HasString(root, "type", "horizontal") || HasString(root, "type", "vertical")
        then Some(ContainerOf(Object(root)))
      else None
  {
  }

  /** What a window is read from. */
  lemma WindowFormat(obj: Fields, popup: Fields)
    requires if "emotePopup" in obj && obj["emotePopup"].Object? then obj["emotePopup"] == Object(popup)
             else popup == map[]
    ensures var j := Object(obj);
      && (ClaimsMain(j) <==> HasString(obj, "type", "main"))
      && (StateOf(j) == Minimized <==> HasString(obj, "state", "minimized"))
      && (StateOf(j) == Maximized <==> HasString(obj, "state", "maximized"))
      && ReadsInt(obj, "x", -1, GeometryOf(j).x) && ReadsInt(obj, "y", -1, GeometryOf(j).y)
      && ReadsInt(obj, "width", -1, GeometryOf(j).width) && ReadsInt(obj, "height", -1, GeometryOf(j).height)
      && ReadsInt(popup, "x", 0, PopupPosOf(j).x) && ReadsInt(popup, "y", 0, PopupPosOf(j).y)
  {
    IntIsRead(obj, "x", -1);
    IntIsRead(obj, "y", -1);
    IntIsRead(obj, "width", -1);
    IntIsRead(obj, "height", -1);
    IntIsRead(popup, "x", 0);
    IntIsRead(popup, "y", 0);
  }

  lemma TabsFormat(obj: Fields)
    ensures TabValues(Object(obj)) == if "tabs" in obj && obj["tabs"].Array? then obj["tabs"].a else []
  {
  }

  /** What a whole file is read as: all windows in order, of which only the first that claims to be the
      main window is, and the popup position of the last one. */
  lemma FileFormat(values: seq<Json>, layout: WindowLayout, j: nat)
    requires LayoutLoaded(values, layout) && j < |values|
    ensures |layout.windows| == |values| && layout.emotePopupPos == PopupPosOf(values[|values| - 1])
    ensures var w := layout.windows[j];
      && (w.type_ == Main <==> ClaimsMain(values[j]) && forall i :: 0 <= i < j ==> !ClaimsMain(values[i]))
      && (w.type_ != Main ==> w.type_ == Popup)
      && w.state == StateOf(values[j]) && w.geometry == GeometryOf(values[j])
      && |w.tabs| == |TabValues(values[j])|
  {
    assert WindowLoaded(values, j, layout.windows[j]);
  }

  /** And its tabs: in order, as decoded, except that only the first selected one stays selected. */
  lemma LoadedTabFormat(values: seq<Json>, layout: WindowLayout, j: nat, t: nat)
    requires LayoutLoaded(values, layout) && j < |values| && t < |TabValues(values[j])|
    ensures j < |layout.windows| && t < |layout.windows[j].tabs|
    ensures var tab, tabs := layout.windows[j].tabs[t], TabValues(values[j]);
      && (tab.selected <==> TabOf(tabs[t]).selected && forall i :: 0 <= i < t ==> !TabOf(tabs[i]).selected)
      && tab.customTitle == TabOf(tabs[t]).customTitle && tab.rootNode == TabOf(tabs[t]).rootNode
      && tab.highlightsEnabled == TabOf(tabs[t]).highlightsEnabled
  {
    assert WindowLoaded(values, j, layout.windows[j]);
    assert TabLoaded(TabValues(values[j]), t, layout.windows[j].tabs[t]);
  }

  /** What is written for a channel, which older and newer versions of the program have to agree on. */
  lemma ChannelFormat(channel: ChannelRef)
    ensures channel.Twitch? ==>
      ChannelFields(channel) == map["type" := String("twitch"), "name" := String(channel.name)]
    ensures channel.Mentions? ==> ChannelFields(channel) == map["type" := String("mentions")]
    ensures channel.Watching? ==> ChannelFields(channel) == map["type" := String("watching")]
    ensures channel.Whispers? ==> ChannelFields(channel) == map["type" := String("whispers")]
    ensures channel.Live? ==> ChannelFields(channel) == map["type" := String("live")]
    ensures channel.Irc? && channel.server.None? ==>
      ChannelFields(channel) == map["type" := String("irc"), "channel" := String(channel.name)]
    ensures channel.Irc? && channel.server.Some? ==>
      ChannelFields(channel) == map["type" := String("irc"), "channel" := String(channel.name),
                                    "server" := FromInt(channel.server.value)]
    ensures channel.OtherChannel? ==> ChannelFields(channel) == map[]
  {
  }
}
