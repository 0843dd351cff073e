/** Parsed JSON with the lookups of QJsonObject and QJsonValue. */
module JsonValues {
  datatype Json =
    | Undefined | Null | Bool(b: bool) | Number(n: real) | String(s: string)
    | Array(a: seq<Json>) | Object(o: map<string, Json>)

  type Fields = map<string, Json>

  type Int32 = i: int | -0x8000_0000 <= i < 0x8000_0000

  function ToObject(j: Json): Fields {
    if j.Object? then j.o else map[]
  }

  function Value(obj: Fields, key: string): Json {
    if key in obj then obj[key] else Undefined
  }

  function ToArray(j: Json): seq<Json> {
    if j.Array? then j.a else []
  }

  function ToString(j: Json): string {
    if j.String? then j.s else ""
  }

  function ToBool(j: Json, fallback: bool): bool {
    if j.Bool? then j.b else fallback
  }

  function ToDouble(j: Json, fallback: real): real {
    if j.Number? then j.n else fallback
  }

  /** Only whole numbers in the range of an int convert. */
  function ToInt(j: Json, fallback: Int32): Int32 {
    if j.Number? && j.n == j.n.Floor as real && -0x8000_0000 <= j.n.Floor < 0x8000_0000 then j.n.Floor
    else fallback
  }

  function FromInt(i: Int32): Json {
    Number(i as real)
  }
}

/** What is saved (src/singletons/WindowManager.cpp) and what is loaded
    (src/common/WindowDescriptors.hpp). */
module Layouts {
  import opened Options
  import opened JsonValues

  /** A filter id, by its text without braces. */
  datatype Uuid = Uuid(text: string)

  datatype ChannelRef =
    | Twitch(name: string) | Mentions | Watching | Whispers | Live
    | Irc(server: Option<Int32>, name: string)
    | OtherChannel

  datatype SplitNode =
    | Split(channel: ChannelRef, moderationMode: bool, filters: seq<Uuid>, flexH: real, flexV: real)
    | Container(vertical: bool, children: seq<SplitNode>, flexH: real, flexV: real)
    | EmptyRoot(flexH: real, flexV: real)

  datatype Tab = Tab(customTitle: string, highlightsEnabled: bool, baseNode: SplitNode)

  datatype SplitDescriptor = SplitDescriptor(
    type_: string, channelName: string, server: Int32, moderationMode: bool, filters: seq<Uuid>)

  datatype NodeDescriptor =
    | SplitNodeDescriptor(split: SplitDescriptor, flexH: real, flexV: real)
    | ContainerNodeDescriptor(flexH: real, flexV: real, vertical: bool, items: seq<NodeDescriptor>)

  datatype TabDescriptor = TabDescriptor(
    customTitle: string, selected: bool, highlightsEnabled: bool, rootNode: Option<NodeDescriptor>)
}

/** The encoders, which insert into an object handed to them. */
module Encoding {
  import opened Options
  import opened JsonValues
  import opened Layouts

  function ChannelFields(channel: ChannelRef): Fields {
    match channel
    case Twitch(name) => map["type" := String("twitch"), "name" := String(name)]
    case Mentions => map["type" := String("mentions")]
    case Watching => map["type" := String("watching")]
    case Whispers => map["type" := String("whispers")]
    case Live => map["type" := String("live")]
    case Irc(server, name) =>
      map["type" := String("irc"), "channel" := String(name)]
      + if server.Some? then map["server" := FromInt(server.value)] else map[]
    case OtherChannel => map[]
  }

  function FilterTexts(filters: seq<Uuid>): seq<Json> {
    seq(|filters|, i requires 0 <= i < |filters| => String(filters[i].text))
  }

  function NodeFields(node: SplitNode): Fields {
    (match node
     case Split(channel, moderationMode, filters, _, _) =>
       map["type" := String("split"), "moderationMode" := Bool(moderationMode),
           "data" := Object(ChannelFields(channel)), "filters" := Array(FilterTexts(filters))]
     case Container(vertical, children, _, _) =>
       map["type" := String(if vertical then "vertical" else "horizontal"),
           "items" := Array(seq(|children|, i requires 0 <= i < |children| => Object(NodeFields(children[i]))))]
     case EmptyRoot(_, _) => map[])
    + map["flexh" := Number(node.flexH), "flexv" := Number(node.flexV)]
  }

  lemma InsertTwo(obj: Fields, first: Fields, a: string, x: Json, b: string, y: Json)
    ensures (obj + first)[a := x][b := y] == obj + (first + map[a := x, b := y])
  {
  }

  function TabHead(tab: Tab, isSelected: bool): Fields {
    (if tab.customTitle != "" then map["title" := String(tab.customTitle)] else map[])
    + (if isSelected then map["selected" := Bool(true)] else map[])
  }

  function TabFields(tab: Tab, isSelected: bool): Fields {
    TabHead(tab, isSelected)
    + map["highlightsEnabled" := Bool(tab.highlightsEnabled), "splits2" := Object(NodeFields(tab.baseNode))]
  }

  method EncodeChannel(channel: ChannelRef, obj: Fields) returns (r: Fields)
    ensures r == obj + ChannelFields(channel)
  {
    r := obj;
    match channel
    case Twitch(name) =>
      r := r["type" := String("twitch")];
      r := r["name" := String(name)];
    case Mentions => r := r["type" := String("mentions")];
    case Watching => r := r["type" := String("watching")];
    case Whispers => r := r["type" := String("whispers")];
    case Live => r := r["type" := String("live")];
    case Irc(server, name) =>
      r := r["type" := String("irc")];
      if server.Some? {
        r := r["server" := FromInt(server.value)];
      }
      r := r["channel" := String(name)];
    case OtherChannel =>
  }

  method EncodeFilters(filters: seq<Uuid>, arr: seq<Json>) returns (r: seq<Json>)
    ensures r == arr + FilterTexts(filters)
  {
    r := arr;
    for i := 0 to |filters|
      invariant r == arr + FilterTexts(filters)[..i]
    {
      r := r + [String(filters[i].text)];
    }
  }

  method EncodeNodeRecursively(node: SplitNode, obj: Fields) returns (r: Fields)
    ensures r == obj + NodeFields(node)
    decreases node
  {
    r := obj;
    ghost var kind: Fields := map[];
    match node {
      case Split(channel, moderationMode, ids, _, _) =>
        r := r["type" := String("split")];
        r := r["moderationMode" := Bool(moderationMode)];
        var split := EncodeChannel(channel, map[]);
        r := r["data" := Object(split)];
        var filters := EncodeFilters(ids, []);
        r := r["filters" := Array(filters)];
        assert split == ChannelFields(channel) && filters == FilterTexts(ids);
        kind := map["type" := String("split"), "moderationMode" := Bool(moderationMode),
                    "data" := Object(ChannelFields(channel)), "filters" := Array(FilterTexts(ids))];
        assert r == obj + kind;
      case Container(vertical, children, _, _) =>
        r := r["type" := String(if !vertical then "horizontal" else "vertical")];
        var itemsArr := [];
        for i := 0 to |children|
          invariant itemsArr == seq(i, k requires 0 <= k < i => Object(NodeFields(children[k])))
        {
          var subObj := EncodeNodeRecursively(children[i], map[]);
          assert map[] + NodeFields(children[i]) == NodeFields(children[i]);
          itemsArr := itemsArr + [Object(subObj)];
        }
        r := r["items" := Array(itemsArr)];
        kind := map["type" := String(if vertical then "vertical" else "horizontal"), "items" := Array(itemsArr)];
        assert r == obj + kind;
      case EmptyRoot(_, _) =>
        assert r == obj + kind;
    }
    r := r["flexh" := Number(node.flexH)];
    r := r["flexv" := Number(node.flexV)];
    InsertTwo(obj, kind, "flexh", Number(node.flexH), "flexv", Number(node.flexV));
  }

  method EncodeTab(tab: Tab, isSelected: bool, obj: Fields) returns (r: Fields)
    ensures r == obj + TabFields(tab, isSelected)
  {
    r := obj;
    if tab.customTitle != "" {
      r := r["title" := String(tab.customTitle)];
    }
    if isSelected {
      r := r["selected" := Bool(true)];
    }
    assert r == obj + TabHead(tab, isSelected);
    InsertTwo(obj, TabHead(tab, isSelected), "highlightsEnabled", Bool(tab.highlightsEnabled),
      "splits2", Object(NodeFields(tab.baseNode)));
    r := r["highlightsEnabled" := Bool(tab.highlightsEnabled)];
    var splits := EncodeNodeRecursively(tab.baseNode, map[]);
    assert map[] + NodeFields(tab.baseNode) == NodeFields(tab.baseNode);
    r := r["splits2" := Object(splits)];
  }
}

/** The loaders of src/common/WindowDescriptors.cpp. */
module Decoding {
  import opened Options
  import opened JsonValues
  import opened Layouts

  function FiltersOf(val: Json): seq<Uuid> {
    var a := ToArray(val);
    seq(|a|, i requires 0 <= i < |a| => Uuid(ToString(a[i])))
  }

  function SplitOf(root: Fields, data: Fields): SplitDescriptor {
    SplitDescriptor(
      ToString(Value(data, "type")),
      if "channel" in data then ToString(Value(data, "channel")) else ToString(Value(data, "name")),
      ToInt(Value(data, "server"), -1),
      ToBool(Value(root, "moderationMode"), false),
      FiltersOf(Value(root, "filters")))
  }

  function SplitNodeOf(j: Json): NodeDescriptor {
    var root := ToObject(j);
    SplitNodeDescriptor(SplitOf(root, ToObject(Value(root, "data"))),
      ToDouble(Value(root, "flexh"), 1.0), ToDouble(Value(root, "flexv"), 1.0))
  }

  function ContainerOf(j: Json): NodeDescriptor
    decreases j, 0
  {
    var root := ToObject(j);
    var items := ToArray(Value(root, "items"));
    ContainerNodeDescriptor(
      ToDouble(Value(root, "flexh"), 1.0), ToDouble(Value(root, "flexv"), 1.0),
      ToString(Value(root, "type")) == "vertical",
      seq(|items|, i requires 0 <= i < |items| => NodeOf(items[i])))
  }

  /** Inside a container everything that is not a split is read as a container. */
  function NodeOf(j: Json): NodeDescriptor
    decreases j, 1
  {
    if Value(ToObject(j), "type") == String("split") then SplitNodeOf(j) else ContainerOf(j)
  }

  function RootOf(j: Json): Option<NodeDescriptor> {
    var root := ToObject(j);
    var nodeType := ToString(Value(root, "type"));
    if root == map[] then None
    else if nodeType == "split" then Some(SplitNodeOf(j))
    else if nodeType == "horizontal" || nodeType == "vertical" then Some(ContainerOf(j))
    else None
  }

  function TabOf(j: Json): TabDescriptor {
    var tabObj := ToObject(j);
    TabDescriptor(
      ToString(Value(tabObj, "title")),
      ToBool(Value(tabObj, "selected"), false),
      ToBool(Value(tabObj, "highlightsEnabled"), true),
      RootOf(Object(ToObject(Value(tabObj, "splits2")))))
  }

  method LoadFilters(val: Json) returns (filterIds: seq<Uuid>)
    ensures filterIds == FiltersOf(val)
  {
    filterIds := [];
    if val != Undefined {
      var values := ToArray(val);
      for i := 0 to |values|
        invariant filterIds == FiltersOf(val)[..i]
      {
        filterIds := filterIds + [Uuid(ToString(values[i]))];
      }
    }
  }

  method LoadSplitNode(j: Json) returns (descriptor: NodeDescriptor)
    ensures descriptor == SplitNodeOf(j)
  {
    var root := ToObject(j);
    var data := ToObject(Value(root, "data"));
    var channelName;
    if "channel" in data {
      channelName := ToString(Value(data, "channel"));
    } else {
      channelName := ToString(Value(data, "name"));
    }
    var filters := LoadFilters(Value(root, "filters"));
    descriptor := SplitNodeDescriptor(
      SplitDescriptor(ToString(Value(data, "type")), channelName, ToInt(Value(data, "server"), -1),
        ToBool(Value(root, "moderationMode"), false), filters),
      ToDouble(Value(root, "flexh"), 1.0), ToDouble(Value(root, "flexv"), 1.0));
  }

  method LoadContainerNode(j: Json) returns (descriptor: NodeDescriptor)
    ensures descriptor == ContainerOf(j)
    decreases j
  {
    var root := ToObject(j);
    var values := ToArray(Value(root, "items"));
    var items := [];
    for i := 0 to |values|
      invariant items == seq(i, k requires 0 <= k < i => NodeOf(values[k]))
    {
      var node;
      if Value(ToObject(values[i]), "type") == String("split") {
        node := LoadSplitNode(values[i]);
      } else {
        node := LoadContainerNode(values[i]);
      }
      items := items + [node];
    }
    descriptor := ContainerNodeDescriptor(
      ToDouble(Value(root, "flexh"), 1.0), ToDouble(Value(root, "flexv"), 1.0),
      ToString(Value(root, "type")) == "vertical", items);
  }

  method LoadTab(j: Json) returns (tab: TabDescriptor)
    ensures tab == TabOf(j)
  {
    var tabObj := ToObject(j);
    tab := TabDescriptor("", false, true, None);
    var titleVal := Value(tabObj, "title");
    if titleVal.String? {
      tab := tab.(customTitle := ToString(titleVal));
    }
    tab := tab.(selected := ToBool(Value(tabObj, "selected"), false));
    tab := tab.(highlightsEnabled := ToBool(Value(tabObj, "highlightsEnabled"), true));
    var splitRoot := ToObject(Value(tabObj, "splits2"));
    if splitRoot != map[] {
      var nodeType := ToString(Value(splitRoot, "type"));
      if nodeType == "split" {
        var node := LoadSplitNode(Object(splitRoot));
        tab := tab.(rootNode := Some(node));
      } else if nodeType == "horizontal" || nodeType == "vertical" {
        var node := LoadContainerNode(Object(splitRoot));
        tab := tab.(rootNode := Some(node));
      }
    }
  }

  /** `WindowManager::decodeChannel`. */
  function DecodeChannel(d: SplitDescriptor): ChannelRef {
    if d.type_ == "twitch" then Twitch(d.channelName)
    else if d.type_ == "mentions" then Mentions
    else if d.type_ == "watching" then Watching
    else if d.type_ == "whispers" then Whispers
    else if d.type_ == "live" then Live
    else if d.type_ == "irc" then Irc(Some(d.server), d.channelName)
    else OtherChannel
  }
}

/** Decoding what was encoded. */
module RoundTrips {
  import opened Options
  import opened JsonValues
  import opened Layouts
  import opened Encoding
  import opened Decoding

  /** The same split, read back: every field is that of the original. */
  ghost predicate SameSplit(node: SplitNode, d: NodeDescriptor)
    requires node.Split?
  {
    && d.SplitNodeDescriptor? && d.flexH == node.flexH && d.flexV == node.flexV
    && d.split.moderationMode == node.moderationMode && d.split.filters == node.filters
    && DecodeChannel(d.split) == Reopened(node.channel)
  }

  /** What a channel is reopened as: an IRC channel without server gets server -1. */
  function Reopened(channel: ChannelRef): ChannelRef {
    if channel.Irc? && channel.server.None? then Irc(Some(-1), channel.name) else channel
  }

  /** The same tree: shape, orientation and flex values agree all the way down. An empty node can
      only be a root; below a container it would read as a container without items. */
  ghost predicate SameTree(node: SplitNode, d: NodeDescriptor)
    decreases node
  {
    match node
    case Split(_, _, _, _, _) => SameSplit(node, d)
    case Container(vertical, children, flexH, flexV) =>
      && d.ContainerNodeDescriptor? && d.flexH == flexH && d.flexV == flexV && d.vertical == vertical
      && |d.items| == |children|
      && forall i :: 0 <= i < |children| ==> SameTree(children[i], d.items[i])
    case EmptyRoot(flexH, flexV) => d == ContainerNodeDescriptor(flexH, flexV, false, [])
  }

  lemma IntRoundTrip(i: Int32, fallback: Int32)
    ensures ToInt(FromInt(i), fallback) == i
  {
    assert (i as real).Floor == i;
  }

  lemma ChannelRoundTrip(node: SplitNode)
    requires node.Split?
    ensures SameSplit(node, SplitNodeOf(Object(NodeFields(node))))
  {
    var data := ChannelFields(node.channel);
    var d := SplitNodeOf(Object(NodeFields(node)));
    assert d.split == SplitOf(NodeFields(node), data);
    if node.channel.Irc? && node.channel.server.Some? {
      IntRoundTrip(node.channel.server.value, -1);
    }
    assert FiltersOf(Array(FilterTexts(node.filters))) == node.filters;
  }

  /** Every tree of splits and containers survives encoding and decoding. */
  lemma {:induction false} TreeRoundTrip(node: SplitNode)
    ensures SameTree(node, NodeOf(Object(NodeFields(node))))
    decreases node
  {
    var j := Object(NodeFields(node));
    match node
    case Split(_, _, _, _, _) => ChannelRoundTrip(node);
    case Container(vertical, children, _, _) =>
      var items := ToArray(Value(NodeFields(node), "items"));
      assert |items| == |children|;
      forall i | 0 <= i < |children| ensures SameTree(children[i], ContainerOf(j).items[i]) {
        assert items[i] == Object(NodeFields(children[i]));
        TreeRoundTrip(children[i]);
      }
    case EmptyRoot(_, _) =>
  }

  lemma RootRoundTrip(node: SplitNode)
    ensures var r := RootOf(Object(NodeFields(node)));
      (r.None? <==> node.EmptyRoot?) && (r.Some? ==> SameTree(node, r.value))
  {
    TreeRoundTrip(node);
    var fields := NodeFields(node);
    assert "flexh" in fields;
    assert RootOf(Object(fields)).Some? ==> RootOf(Object(fields)) == Some(NodeOf(Object(fields)));
  }

  lemma TabFieldsLookup(tab: Tab, isSelected: bool)
    ensures var f := TabFields(tab, isSelected);
      && ToString(Value(f, "title")) == tab.customTitle && ToBool(Value(f, "selected"), false) == isSelected
      && Value(f, "highlightsEnabled") == Bool(tab.highlightsEnabled)
      && Value(f, "splits2") == Object(NodeFields(tab.baseNode))
  {
  }

  /** A saved tab is loaded with its title, selection, highlight switch and tree; a tab without
      splits is loaded without a root node. */
  lemma TabRoundTrip(tab: Tab, isSelected: bool)
    ensures var t := TabOf(Object(TabFields(tab, isSelected)));
      && t.customTitle == tab.customTitle && t.selected == isSelected && t.highlightsEnabled == tab.highlightsEnabled
      && (t.rootNode.None? <==> tab.baseNode.EmptyRoot?)
      && (t.rootNode.Some? ==> SameTree(tab.baseNode, t.rootNode.value))
  {
    TabFieldsLookup(tab, isSelected);
    RootRoundTrip(tab.baseNode);
  }
}

/** A whole layout: `WindowManager::save` up to the finished document and
    `WindowLayout::loadFromFile` from the parsed document. */
module LayoutFiles {
  import opened Options
  import opened JsonValues
  import opened Layouts
  import opened Encoding
  import opened Decoding
  import opened RoundTrips

  datatype WindowType = Main | Popup | Attached
  datatype WindowState = Normal | Minimized | Maximized
  datatype Rect = Rect(x: Int32, y: Int32, width: Int32, height: Int32)
  datatype Point = Point(x: Int32, y: Int32)

  /** An open window; `selected` is the position of the selected page, if there is one. */
  datatype Window = Window(type_: WindowType, state: WindowState, bounds: Rect, tabs: seq<Tab>, selected: Option<nat>)

  datatype WindowDescriptor = WindowDescriptor(
    type_: WindowType, state: WindowState, geometry: Rect, tabs: seq<TabDescriptor>)

  datatype WindowLayout = WindowLayout(emotePopupPos: Point, windows: seq<WindowDescriptor>)

  predicate ClaimsMain(windowVal: Json) {
    ToString(Value(ToObject(windowVal), "type")) == "main"
  }

  function TabValues(windowVal: Json): seq<Json> {
    ToArray(Value(ToObject(windowVal), "tabs"))
  }

  function StateOf(windowVal: Json): WindowState {
    var state := Value(ToObject(windowVal), "state");
    if state == String("minimized") then Minimized
    else if state == String("maximized") then Maximized
    else Normal
  }

  function GeometryOf(windowVal: Json): Rect {
    var obj := ToObject(windowVal);
    Rect(ToInt(Value(obj, "x"), -1), ToInt(Value(obj, "y"), -1),
         ToInt(Value(obj, "width"), -1), ToInt(Value(obj, "height"), -1))
  }

  function PopupPosOf(windowVal: Json): Point {
    var obj := ToObject(Value(ToObject(windowVal), "emotePopup"));
    Point(ToInt(Value(obj, "x"), 0), ToInt(Value(obj, "y"), 0))
  }

  ghost predicate FirstSelected(values: seq<Json>, j: nat)
    requires j < |values|
  {
    TabOf(values[j]).selected && forall i :: 0 <= i < j ==> !TabOf(values[i]).selected
  }

  /** A tab as decoded, except that only the first selected one stays selected. */
  ghost predicate TabLoaded(values: seq<Json>, j: nat, tab: TabDescriptor)
    requires j < |values|
  {
    tab == TabOf(values[j]).(selected := FirstSelected(values, j))
  }

  ghost predicate TabsLoaded(values: seq<Json>, tabs: seq<TabDescriptor>) {
    |tabs| == |values| && forall j :: 0 <= j < |tabs| ==> TabLoaded(values, j, tabs[j])
  }

  ghost predicate AnySelected(values: seq<Json>, n: nat)
    requires n <= |values|
  {
    exists i :: 0 <= i < n && TabOf(values[i]).selected
  }

  method LoadTabs(values: seq<Json>) returns (tabs: seq<TabDescriptor>)
    ensures TabsLoaded(values, tabs)
  {
    tabs := [];
    var hasSetASelectedTab := false;
    for n := 0 to |values|
      invariant |tabs| == n && forall j :: 0 <= j < n ==> TabLoaded(values, j, tabs[j])
      invariant hasSetASelectedTab <==> AnySelected(values, n)
    {
      var tab := LoadTab(values[n]);
      assert AnySelected(values, n + 1) <==> AnySelected(values, n) || tab.selected;
      if tab.selected {
        if hasSetASelectedTab {
          tab := tab.(selected := false);
        }
        hasSetASelectedTab := true;
      }
      assert TabLoaded(values, n, tab);
      tabs := tabs + [tab];
    }
  }

  ghost predicate FirstMainClaim(values: seq<Json>, j: nat)
    requires j < |values|
  {
    ClaimsMain(values[j]) && forall i :: 0 <= i < j ==> !ClaimsMain(values[i])
  }

  /** A window as described; only the first one that claims to be the main window is. */
  ghost predicate WindowLoaded(values: seq<Json>, j: nat, window: WindowDescriptor)
    requires j < |values|
  {
    && window.type_ == (if FirstMainClaim(values, j) then Main else Popup)
    && window.state == StateOf(values[j]) && window.geometry == GeometryOf(values[j])
    && TabsLoaded(TabValues(values[j]), window.tabs)
  }

  ghost predicate WindowsLoaded(values: seq<Json>, windows: seq<WindowDescriptor>) {
    |windows| == |values| && forall j :: 0 <= j < |windows| ==> WindowLoaded(values, j, windows[j])
  }

  ghost predicate AnyMain(values: seq<Json>, n: nat)
    requires n <= |values|
  {
    exists i :: 0 <= i < n && ClaimsMain(values[i])
  }

  method LoadWindow(values: seq<Json>, n: nat, hasSetAMainWindow: bool) returns (window: WindowDescriptor, main: bool)
    requires n < |values| && (hasSetAMainWindow <==> AnyMain(values, n))
    ensures WindowLoaded(values, n, window) && (main <==> AnyMain(values, n + 1))
  {
    assert AnyMain(values, n + 1) <==> AnyMain(values, n) || ClaimsMain(values[n]);
    var windowObj := ToObject(values[n]);
    main := hasSetAMainWindow;
    var type_ := if ToString(Value(windowObj, "type")) == "main" then Main else Popup;
    if type_ == Main {
      if main {
        type_ := Popup;
      }
      main := true;
    }
    var state := Normal;
    if Value(windowObj, "state") == String("minimized") {
      state := Minimized;
    } else if Value(windowObj, "state") == String("maximized") {
      state := Maximized;
    }
    var tabs := LoadTabs(ToArray(Value(windowObj, "tabs")));
    window := WindowDescriptor(type_, state, GeometryOf(values[n]), tabs);
  }

  /** Every window in order, and the popup position of the last one. */
  ghost predicate LayoutLoaded(values: seq<Json>, layout: WindowLayout) {
    && WindowsLoaded(values, layout.windows)
    && layout.emotePopupPos == if values == [] then Point(0, 0) else PopupPosOf(values[|values| - 1])
  }

  method LoadFromFile(values: seq<Json>) returns (layout: WindowLayout)
    ensures LayoutLoaded(values, layout)
  {
    var popup, windows := Point(0, 0), [];
    var hasSetAMainWindow := false;
    for n := 0 to |values|
      invariant |windows| == n && forall j :: 0 <= j < n ==> WindowLoaded(values, j, windows[j])
      invariant hasSetAMainWindow <==> AnyMain(values, n)
      invariant popup == if n == 0 then Point(0, 0) else PopupPosOf(values[n - 1])
    {
      var window;
      window, hasSetAMainWindow := LoadWindow(values, n, hasSetAMainWindow);
      popup := PopupPosOf(values[n]);
      windows := windows + [window];
    }
    layout := WindowLayout(popup, windows);
  }

  /** Marking only the first claim leaves at most one mark, and one if there is any claim. */
  lemma OnlyFirstIsMarked(claims: seq<bool>, marks: seq<bool>)
    requires |marks| == |claims|
    requires forall j :: 0 <= j < |marks| ==> (marks[j] <==> claims[j] && forall i :: 0 <= i < j ==> !claims[i])
    ensures forall i, j :: 0 <= i < j < |marks| ==> !(marks[i] && marks[j])
    ensures (exists i :: 0 <= i < |claims| && claims[i]) <==> (exists i :: 0 <= i < |marks| && marks[i])
  {
    if exists i :: 0 <= i < |claims| && claims[i] {
      var first := FirstTrue(claims, |claims|);
      assert marks[first];
    }
  }

  lemma {:induction false} FirstTrue(claims: seq<bool>, n: nat) returns (first: nat)
    requires n <= |claims| && exists i :: 0 <= i < n && claims[i]
    ensures first < n && claims[first] && forall i :: 0 <= i < first ==> !claims[i]
  {
    if exists i :: 0 <= i < n - 1 && claims[i] {
      first := FirstTrue(claims, n - 1);
    } else {
      first := n - 1;
    }
  }

  /** Whatever the file says, at most one window is the main one, and one is if any claims to be. */
  lemma OneMainWindow(values: seq<Json>, windows: seq<WindowDescriptor>)
    requires WindowsLoaded(values, windows)
    ensures forall i, j :: 0 <= i < j < |windows| ==> !(windows[i].type_ == Main && windows[j].type_ == Main)
    ensures AnyMain(values, |values|) <==> exists i :: 0 <= i < |windows| && windows[i].type_ == Main
  {
    var claims := seq(|values|, i requires 0 <= i < |values| => ClaimsMain(values[i]));
    assert forall i :: 0 <= i < |values| ==> claims[i] == ClaimsMain(values[i]);
    var marks := seq(|windows|, i requires 0 <= i < |windows| => windows[i].type_ == Main);
    forall j | 0 <= j < |marks| ensures marks[j] <==> claims[j] && forall i :: 0 <= i < j ==> !claims[i] {
      assert WindowLoaded(values, j, windows[j]);
    }
    OnlyFirstIsMarked(claims, marks);
    assert forall i :: 0 <= i < |windows| ==> marks[i] == (windows[i].type_ == Main);
  }

  /** At most one tab of a list of tabs is selected, and one is if any claims to be. */
  lemma OneSelectedTab(values: seq<Json>, tabs: seq<TabDescriptor>)
    requires TabsLoaded(values, tabs)
    ensures forall i, j :: 0 <= i < j < |tabs| ==> !(tabs[i].selected && tabs[j].selected)
    ensures AnySelected(values, |values|) <==> exists i :: 0 <= i < |tabs| && tabs[i].selected
  {
    var claims := seq(|values|, i requires 0 <= i < |values| => TabOf(values[i]).selected);
    assert forall i :: 0 <= i < |values| ==> claims[i] == TabOf(values[i]).selected;
    var marks := seq(|tabs|, i requires 0 <= i < |tabs| => tabs[i].selected);
    forall j | 0 <= j < |marks| ensures marks[j] <==> claims[j] && forall i :: 0 <= i < j ==> !claims[i] {
      assert TabLoaded(values, j, tabs[j]);
    }
    OnlyFirstIsMarked(claims, marks);
    assert forall i :: 0 <= i < |tabs| ==> marks[i] == tabs[i].selected;
  }

  function TabJsons(tabs: seq<Tab>, selected: Option<nat>): seq<Json> {
    seq(|tabs|, i requires 0 <= i < |tabs| => Object(TabFields(tabs[i], selected == Some(i))))
  }

  function WindowHead(w: Window): Fields {
    (match w.type_
     case Main => map["type" := String("main")]
     case Popup => map["type" := String("popup")]
     case Attached => map[])
    + (match w.state
       case Maximized => map["state" := String("maximized")]
       case Minimized => map["state" := String("minimized")]
       case Normal => map[])
  }

  function WindowTail(bounds: Rect, popup: Point, tabs: seq<Json>): Fields {
    map["x" := FromInt(bounds.x), "y" := FromInt(bounds.y),
        "width" := FromInt(bounds.width), "height" := FromInt(bounds.height),
        "emotePopup" := Object(map["x" := FromInt(popup.x), "y" := FromInt(popup.y)]),
        "tabs" := Array(tabs)]
  }

  function WindowFields(w: Window, popup: Point): Fields {
    WindowHead(w) + WindowTail(w.bounds, popup, TabJsons(w.tabs, w.selected))
  }

  function WindowValues(windows: seq<Window>, popup: Point): seq<Json> {
    seq(|windows|, i requires 0 <= i < |windows| => Object(WindowFields(windows[i], popup)))
  }

  /** The document built by `save`. */
  method SaveWindows(windows: seq<Window>, popup: Point) returns (windowArr: seq<Json>)
    ensures windowArr == WindowValues(windows, popup)
  {
    windowArr := [];
    for n := 0 to |windows|
      invariant windowArr == WindowValues(windows, popup)[..n]
    {
      var windowObj := SaveWindow(windows[n], popup);
      windowArr := windowArr + [Object(windowObj)];
    }
  }

  method SaveWindow(window: Window, popup: Point) returns (windowObj: Fields)
    ensures windowObj == WindowFields(window, popup)
  {
    windowObj := map[];
    match window.type_ {
      case Main => windowObj := windowObj["type" := String("main")];
      case Popup => windowObj := windowObj["type" := String("popup")];
      case Attached =>
    }
    if window.state == Maximized {
      windowObj := windowObj["state" := String("maximized")];
    } else if window.state == Minimized {
      windowObj := windowObj["state" := String("minimized")];
    }
    assert windowObj == WindowHead(window);
    var tabsArr := SaveTabs(window.tabs, window.selected);
    windowObj := SaveTail(windowObj, window.bounds, popup, tabsArr);
  }

  method SaveTail(head: Fields, bounds: Rect, popup: Point, tabsArr: seq<Json>) returns (windowObj: Fields)
    ensures windowObj == head + WindowTail(bounds, popup, tabsArr)
  {
    windowObj := head;
    windowObj := windowObj["x" := FromInt(bounds.x)];
    windowObj := windowObj["y" := FromInt(bounds.y)];
    windowObj := windowObj["width" := FromInt(bounds.width)];
    windowObj := windowObj["height" := FromInt(bounds.height)];
    var emotePopupObj: Fields := map[];
    emotePopupObj := emotePopupObj["x" := FromInt(popup.x)];
    emotePopupObj := emotePopupObj["y" := FromInt(popup.y)];
    windowObj := windowObj["emotePopup" := Object(emotePopupObj)];
    windowObj := windowObj["tabs" := Array(tabsArr)];
    assert emotePopupObj == map["x" := FromInt(popup.x), "y" := FromInt(popup.y)];
  }

  method SaveTabs(tabs: seq<Tab>, selected: Option<nat>) returns (tabsArr: seq<Json>)
    ensures tabsArr == TabJsons(tabs, selected)
  {
    tabsArr := [];
    for tabIndex := 0 to |tabs|
      invariant tabsArr == TabJsons(tabs, selected)[..tabIndex]
    {
      var isSelected := selected == Some(tabIndex);
      var tabObj := EncodeTab(tabs[tabIndex], isSelected, map[]);
      assert tabObj == TabFields(tabs[tabIndex], isSelected);
      tabsArr := tabsArr + [Object(tabObj)];
    }
  }

  ghost predicate SameTab(tab: Tab, selected: bool, d: TabDescriptor) {
    && d.customTitle == tab.customTitle && d.highlightsEnabled == tab.highlightsEnabled && d.selected == selected
    && (d.rootNode.None? <==> tab.baseNode.EmptyRoot?)
    && (d.rootNode.Some? ==> SameTree(tab.baseNode, d.rootNode.value))
  }

  /** A loaded window is the saved one: kind, state, geometry, and each tab with its title,
      selection, highlight switch and tree. Attached windows, whose kind is not saved, come back
      as popups. */
  ghost predicate SameWindow(w: Window, d: WindowDescriptor) {
    && (d.type_ == Main <==> w.type_ == Main) && d.state == w.state && d.geometry == w.bounds
    && |d.tabs| == |w.tabs|
    && forall j :: 0 <= j < |w.tabs| ==> SameTab(w.tabs[j], w.selected == Some(j), d.tabs[j])
  }

  lemma TabsRoundTrip(saved: seq<Tab>, selected: Option<nat>, tabs: seq<TabDescriptor>)
    requires TabsLoaded(TabJsons(saved, selected), tabs)
    ensures |tabs| == |saved| && forall j :: 0 <= j < |saved| ==> SameTab(saved[j], selected == Some(j), tabs[j])
  {
    var values := TabJsons(saved, selected);
    forall k | 0 <= k < |saved| ensures TabOf(values[k]).selected <==> selected == Some(k) {
      TabRoundTrip(saved[k], selected == Some(k));
    }
    forall k | 0 <= k < |saved| ensures SameTab(saved[k], selected == Some(k), tabs[k]) {
      TabRoundTrip(saved[k], selected == Some(k));
      assert TabLoaded(values, k, tabs[k]);
    }
  }

  /** The fields of the tail do not hide those of the head, nor each other. */
  lemma HeadLookup(w: Window, popup: Point)
    ensures Value(WindowFields(w, popup), "type") == Value(WindowHead(w), "type")
    ensures Value(WindowFields(w, popup), "state") == Value(WindowHead(w), "state")
  {
  }

  lemma GeometryLookup(bounds: Rect, popup: Point, tabs: seq<Json>)
    ensures var t := WindowTail(bounds, popup, tabs);
      && Value(t, "x") == FromInt(bounds.x) && Value(t, "y") == FromInt(bounds.y)
      && Value(t, "width") == FromInt(bounds.width) && Value(t, "height") == FromInt(bounds.height)
      && t.Keys == {"x", "y", "width", "height", "emotePopup", "tabs"}
  {
  }

  lemma PopupLookup(bounds: Rect, popup: Point, tabs: seq<Json>)
    ensures var t := WindowTail(bounds, popup, tabs);
      && Value(t, "emotePopup") == Object(map["x" := FromInt(popup.x), "y" := FromInt(popup.y)])
      && Value(t, "tabs") == Array(tabs)
  {
  }

  lemma TailWins(head: Fields, tail: Fields, key: string)
    requires key in tail
    ensures Value(head + tail, key) == Value(tail, key)
  {
  }

  lemma TypeRoundTrip(w: Window, popup: Point)
    ensures var j := Object(WindowFields(w, popup));
      (ClaimsMain(j) <==> w.type_ == Main) && StateOf(j) == w.state
  {
    HeadLookup(w, popup);
  }

  lemma GeometryRoundTrip(w: Window, popup: Point)
    ensures GeometryOf(Object(WindowFields(w, popup))) == w.bounds
  {
    var head, tail := WindowHead(w), WindowTail(w.bounds, popup, TabJsons(w.tabs, w.selected));
    GeometryLookup(w.bounds, popup, TabJsons(w.tabs, w.selected));
    TailWins(head, tail, "x");
    TailWins(head, tail, "y");
    TailWins(head, tail, "width");
    TailWins(head, tail, "height");
    IntRoundTrip(w.bounds.x, -1);
    IntRoundTrip(w.bounds.y, -1);
    IntRoundTrip(w.bounds.width, -1);
    IntRoundTrip(w.bounds.height, -1);
  }

  lemma PopupRoundTrip(w: Window, popup: Point)
    ensures PopupPosOf(Object(WindowFields(w, popup))) == popup
    ensures TabValues(Object(WindowFields(w, popup))) == TabJsons(w.tabs, w.selected)
  {
    var head, tail := WindowHead(w), WindowTail(w.bounds, popup, TabJsons(w.tabs, w.selected));
    PopupLookup(w.bounds, popup, TabJsons(w.tabs, w.selected));
    TailWins(head, tail, "emotePopup");
    TailWins(head, tail, "tabs");
    IntRoundTrip(popup.x, 0);
    IntRoundTrip(popup.y, 0);
  }

  lemma FieldsRoundTrip(w: Window, popup: Point)
    ensures var j := Object(WindowFields(w, popup));
      && (ClaimsMain(j) <==> w.type_ == Main) && PopupPosOf(j) == popup
      && StateOf(j) == w.state && GeometryOf(j) == w.bounds && TabValues(j) == TabJsons(w.tabs, w.selected)
  {
    TypeRoundTrip(w, popup);
    GeometryRoundTrip(w, popup);
    PopupRoundTrip(w, popup);
  }

  ghost predicate OneMain(windows: seq<Window>) {
    forall i, j :: 0 <= i < j < |windows| ==> !(windows[i].type_ == Main && windows[j].type_ == Main)
  }

  lemma SavedClaims(windows: seq<Window>, popup: Point, j: nat)
    requires j < |windows| && OneMain(windows)
    ensures FirstMainClaim(WindowValues(windows, popup), j) <==> windows[j].type_ == Main
  {
    var values := WindowValues(windows, popup);
    forall i | 0 <= i < |windows| ensures ClaimsMain(values[i]) <==> windows[i].type_ == Main {
      TypeRoundTrip(windows[i], popup);
    }
  }

  lemma WindowRoundTrip(windows: seq<Window>, popup: Point, j: nat, d: WindowDescriptor)
    requires j < |windows| && OneMain(windows) && WindowLoaded(WindowValues(windows, popup), j, d)
    ensures SameWindow(windows[j], d)
  {
    SavedClaims(windows, popup, j);
    FieldsRoundTrip(windows[j], popup);
    TabsRoundTrip(windows[j].tabs, windows[j].selected, d.tabs);
  }

  /** The saved windows in the same order, and the same popup position. */
  ghost predicate SameLayout(windows: seq<Window>, popup: Point, layout: WindowLayout) {
    && |layout.windows| == |windows|
    && (forall j :: 0 <= j < |windows| ==> SameWindow(windows[j], layout.windows[j]))
    && (windows != [] ==> layout.emotePopupPos == popup)
  }

  /** Saving and loading any windows, of which at most one is the main window, gives the same
      layout. */
  lemma LayoutRoundTrip(windows: seq<Window>, popup: Point, layout: WindowLayout)
    requires LayoutLoaded(WindowValues(windows, popup), layout) && OneMain(windows)
    ensures SameLayout(windows, popup, layout)
  {
    forall j | 0 <= j < |windows| ensures SameWindow(windows[j], layout.windows[j]) {
      WindowRoundTrip(windows, popup, j, layout.windows[j]);
    }
    if windows != [] {
      PopupRoundTrip(windows[|windows| - 1], popup);
    }
  }

  /** The two methods together. */
  method SaveAndLoad(windows: seq<Window>, popup: Point) returns (layout: WindowLayout)
    requires OneMain(windows)
    ensures SameLayout(windows, popup, layout)
  {
    var values := SaveWindows(windows, popup);
    layout := LoadFromFile(values);
    LayoutRoundTrip(windows, popup, layout);
  }
}
