/**
 * Monitor message types (pkg/monitor/api): the table of message-type names,
 * the lookups from numbers to names with their decimal fallback, the
 * message-type filter used by `cilium monitor --type`, and the fixed names of
 * trace observation points, agent notifications and policy match types.
 */
module MonitorTypes {
  import opened Wrappers
  import opened GoStrings
  import opened Seqs

  type u8 = x: int | 0 <= x < 0x100
  type u32 = x: int | 0 <= x < 0x1_0000_0000

  // ---------------------------------------------------------------------------
  // Message types (keep in sync with bpf/lib/common.h)
  // ---------------------------------------------------------------------------

  const MessageTypeUnspec: int := 0
  const MessageTypeDrop: int := 1
  const MessageTypeDebug: int := 2
  const MessageTypeCapture: int := 3
  const MessageTypeTrace: int := 4
  const MessageTypePolicyVerdict: int := 5
  const MessageTypeRecCapture: int := 6
  const MessageTypeTraceSock: int := 7
  const MessageTypeAccessLog: int := 129
  const MessageTypeAgent: int := 130

  /** The registered message-type names and the type each one selects. */
  const MessageTypeNames: map<string, int> := map[
    "drop" := MessageTypeDrop,
    "debug" := MessageTypeDebug,
    "capture" := MessageTypeCapture,
    "trace" := MessageTypeTrace,
    "l7" := MessageTypeAccessLog,
    "agent" := MessageTypeAgent,
    "policy-verdict" := MessageTypePolicyVerdict,
    "recorder" := MessageTypeRecCapture,
    "trace-sock" := MessageTypeTraceSock
  ]

  /**
   * The name registered for each message type, i.e. the answer of the search
   * over MessageTypeNames' entries for a matching value. It is the inverse of
   * MessageTypeNames (MessageTypeNamesInverse).
   */
  const MessageTypeByValue: map<int, string> := map[
    MessageTypeDrop := "drop",
    MessageTypeDebug := "debug",
    MessageTypeCapture := "capture",
    MessageTypeTrace := "trace",
    MessageTypeAccessLog := "l7",
    MessageTypeAgent := "agent",
    MessageTypePolicyVerdict := "policy-verdict",
    MessageTypeRecCapture := "recorder",
    MessageTypeTraceSock := "trace-sock"
  ]

  /** Every registered name starts with a lower-case letter. */
  predicate StartsWithLetter(s: string)
  {
    |s| > 0 && 'a' <= s[0] <= 'z'
  }

  /** A decimal rendering of a number (digits, or '-' then digits) does not start with a letter. */
  lemma DecimalIsNoName(i: int)
    ensures !StartsWithLetter(IntToDecimal(i))
  {
    var s := IntToDecimal(i);
    if i >= 0 {
      assert IsDigit(s[0]);
    }
  }

  /** The entries of MessageTypeNames, one by one. */
  lemma MessageTypeEntries()
    ensures MessageTypeNames.Keys == {"drop", "debug", "capture", "trace", "l7", "agent", "policy-verdict", "recorder", "trace-sock"}
    ensures MessageTypeNames["drop"] == 1 && MessageTypeNames["debug"] == 2
    ensures MessageTypeNames["capture"] == 3 && MessageTypeNames["trace"] == 4
    ensures MessageTypeNames["l7"] == 129 && MessageTypeNames["agent"] == 130
    ensures MessageTypeNames["policy-verdict"] == 5 && MessageTypeNames["recorder"] == 6
    ensures MessageTypeNames["trace-sock"] == 7
  {
  }

  /** The two tables are each other's inverse: names and values are in one-to-one correspondence. */
  lemma MessageTypeNamesInverse()
    ensures forall name | name in MessageTypeNames ::
      MessageTypeNames[name] in MessageTypeByValue && MessageTypeByValue[MessageTypeNames[name]] == name
    ensures forall typ | typ in MessageTypeByValue ::
      MessageTypeByValue[typ] in MessageTypeNames && MessageTypeNames[MessageTypeByValue[typ]] == typ
    ensures forall typ :: typ in MessageTypeByValue <==> typ in MessageTypeNames.Values
  {
    MessageTypeEntries();
    assert MessageTypeByValue.Keys == {1, 2, 3, 4, 129, 130, 5, 6, 7};
  }

  /** Registered names are not decimal numbers. */
  lemma NamesStartWithLetter()
    ensures forall name | name in MessageTypeNames :: StartsWithLetter(name)
  {
    MessageTypeNamesInverse();
  }

  /**
   * MessageTypeName: the registered name of a message type, or the decimal
   * rendering of the number when no name is registered for it.
   */
  function MessageTypeName(typ: int): (name: string)
    ensures typ in MessageTypeNames.Values ==> name in MessageTypeNames && MessageTypeNames[name] == typ
    ensures typ !in MessageTypeNames.Values ==> name == IntToDecimal(typ)
  {
    MessageTypeNamesInverse();
    if typ in MessageTypeByValue then MessageTypeByValue[typ] else IntToDecimal(typ)
  }

  /** Looking up the name of a registered name's type gives the name back. */
  lemma MessageTypeNameRoundTrip(name: string)
    requires name in MessageTypeNames
    ensures MessageTypeName(MessageTypeNames[name]) == name
  {
    MessageTypeNamesInverse();
  }

  /** The name of a type is a registered name exactly when the type is registered. */
  lemma MessageTypeNameRegistered(typ: int)
    ensures MessageTypeName(typ) in MessageTypeNames <==> typ in MessageTypeNames.Values
  {
    if typ !in MessageTypeNames.Values {
      DecimalIsNoName(typ);
      NamesStartWithLetter();
    }
  }

  /** Different types have different names, registered or not. */
  lemma MessageTypeNameInjective(a: int, b: int)
    requires MessageTypeName(a) == MessageTypeName(b)
    ensures a == b
  {
    MessageTypeNameRegistered(a);
    MessageTypeNameRegistered(b);
    if a !in MessageTypeNames.Values {
      IntToDecimalInjective(a, b);
    }
  }

  // ---------------------------------------------------------------------------
  // AllMessageTypeNames: collect the names, then sort them by type
  // ---------------------------------------------------------------------------

  /** Names in strictly increasing order of their message type. */
  ghost predicate ByType(names: seq<string>)
  {
    (forall k | 0 <= k < |names| :: names[k] in MessageTypeNames)
    && (forall i, j | 0 <= i < j < |names| :: MessageTypeNames[names[i]] < MessageTypeNames[names[j]])
  }

  /** Registered names with the same type are the same name. */
  lemma SameTypeSameName(a: string, b: string)
    requires a in MessageTypeNames && b in MessageTypeNames
    requires MessageTypeNames[a] == MessageTypeNames[b]
    ensures a == b
  {
    MessageTypeNameRoundTrip(a);
    MessageTypeNameRoundTrip(b);
  }

  /** One step of sort.SliceStable: insert `name` at its place in an ordered list. */
  function InsertByType(name: string, sorted: seq<string>): (r: seq<string>)
    requires name in MessageTypeNames && name !in sorted && ByType(sorted)
    ensures |r| == |sorted| + 1 && Elems(r) == Elems(sorted) + {name}
    ensures ByType(r)
  {
    if |sorted| == 0 then [name]
    else if MessageTypeNames[name] < MessageTypeNames[sorted[0]] then
      InsertedFirst(name, sorted);
      [name] + sorted
    else
      assert MessageTypeNames[name] != MessageTypeNames[sorted[0]] by {
        if MessageTypeNames[name] == MessageTypeNames[sorted[0]] {
          SameTypeSameName(name, sorted[0]);
        }
      }
      var rest := InsertByType(name, sorted[1..]);
      InsertedLater(name, sorted, rest);
      [sorted[0]] + rest
  }

  lemma InsertedFirst(name: string, sorted: seq<string>)
    requires name in MessageTypeNames && ByType(sorted) && |sorted| > 0
    requires MessageTypeNames[name] < MessageTypeNames[sorted[0]]
    ensures ByType([name] + sorted) && Elems([name] + sorted) == Elems(sorted) + {name}
  {
    var r := [name] + sorted;
    forall i, j | 0 <= i < j < |r|
      ensures MessageTypeNames[r[i]] < MessageTypeNames[r[j]]
    {
      if i == 0 && j > 1 {
        assert MessageTypeNames[sorted[0]] < MessageTypeNames[sorted[j - 1]];
      }
    }
    assert forall x :: x in r <==> x == name || x in sorted;
  }

  lemma InsertedLater(name: string, sorted: seq<string>, rest: seq<string>)
    requires name in MessageTypeNames && ByType(sorted) && |sorted| > 0
    requires MessageTypeNames[sorted[0]] < MessageTypeNames[name]
    requires ByType(rest) && Elems(rest) == Elems(sorted[1..]) + {name}
    ensures ByType([sorted[0]] + rest) && Elems([sorted[0]] + rest) == Elems(sorted) + {name}
  {
    var r := [sorted[0]] + rest;
    forall i, j | 0 <= i < j < |r|
      ensures MessageTypeNames[r[i]] < MessageTypeNames[r[j]]
    {
      if i == 0 {
        var x := rest[j - 1];
        assert x in Elems(rest);
        if x != name {
          var k :| 0 <= k < |sorted[1..]| && sorted[1..][k] == x;
          assert sorted[k + 1] == x;
        }
      }
    }
    assert sorted == [sorted[0]] + sorted[1..];
    ElemsCons(sorted[0], rest);
    ElemsCons(sorted[0], sorted[1..]);
  }

  /** sort.SliceStable by message type, as repeated insertion. */
  function SortByType(names: seq<string>): (r: seq<string>)
    requires forall k | 0 <= k < |names| :: names[k] in MessageTypeNames
    requires Distinct(names)
    ensures |r| == |names| && Elems(r) == Elems(names)
    ensures ByType(r)
  {
    if |names| == 0 then []
    else
      var init := names[..|names| - 1];
      var last := names[|names| - 1];
      assert Distinct(init);
      var sorted := SortByType(init);
      assert last !in Elems(init) by {
        forall k | 0 <= k < |init|
          ensures init[k] != last
        {
          assert init[k] == names[k];
        }
      }
      assert names == init + [last];
      ElemsAppend(init, last);
      InsertByType(last, sorted)
  }

  /** The `for name := range` loop: the keys of a map, each once, in an unspecified order. */
  method CollectKeys<V>(m: map<string, V>) returns (keys: seq<string>)
    ensures |keys| == |m| && Elems(keys) == m.Keys && Distinct(keys)
  {
    keys := [];
    var rest := m.Keys;
    while rest != {}
      invariant Elems(keys) + rest == m.Keys
      invariant Elems(keys) !! rest
      invariant Distinct(keys)
      invariant |keys| + |rest| == |m|
      decreases |rest|
    {
      var name :| name in rest;
      DistinctAppend(keys, name);
      ElemsAppend(keys, name);
      keys := keys + [name];
      rest := rest - {name};
    }
  }

  /**
   * AllMessageTypeNames: every registered name exactly once, ordered by the
   * message type it selects.
   */
  method AllMessageTypeNames() returns (names: seq<string>)
    ensures |names| == |MessageTypeNames|
    ensures forall name :: name in names <==> name in MessageTypeNames
    ensures ByType(names)
  {
    var collected := CollectKeys(MessageTypeNames);
    assert forall k | 0 <= k < |collected| :: collected[k] in Elems(collected);
    names := SortByType(collected);
    assert forall name :: name in names <==> name in Elems(names);
  }

  // ---------------------------------------------------------------------------
  // MessageTypeFilter: the list of types selected on the command line
  // ---------------------------------------------------------------------------

  /** The `%v` rendering of MessageTypeNames (fmt prints a map's entries in key order). */
  const MessageTypeNamesText: string :=
    "map[agent:130 capture:3 debug:2 drop:1 l7:129 policy-verdict:5 recorder:6 trace:4 trace-sock:7]"

  function UnknownTypeError(value: string): string
  {
    "Unknown type (" + value + "). Please use one of the following ones " + MessageTypeNamesText
  }

  /** slices.Index over a filter: the first position of `typ`, or -1. */
  function IndexOfType(types: seq<int>, typ: int): (r: int)
    ensures -1 <= r < |types|
    ensures r == -1 <==> typ !in types
    ensures r >= 0 ==> types[r] == typ && typ !in types[..r]
  {
    if |types| == 0 then -1
    else if types[0] == typ then 0
    else
      var k := IndexOfType(types[1..], typ);
      if k < 0 then -1 else assert types[..k + 1] == [types[0]] + types[1..][..k]; k + 1
  }

  /** The name of every type in the filter, in filter order. */
  function FilterPieces(types: seq<int>): (pieces: seq<string>)
    ensures |pieces| == |types|
    ensures forall k | 0 <= k < |types| :: pieces[k] == MessageTypeName(types[k])
  {
    seq(|types|, k requires 0 <= k < |types| => MessageTypeName(types[k]))
  }

  /** The filter's String(): the names joined with ','. */
  function FilterText(types: seq<int>): string
  {
    Join(FilterPieces(types), ',')
  }

  class MessageTypeFilter {
    var types: seq<int>

    constructor ()
      ensures types == []
    {
      types := [];
    }

    /**
     * Set: a known name appends exactly its type; an unknown name is an error
     * listing the known names and leaves the filter as it was.
     */
    method Set(value: string) returns (err: Option<string>)
      modifies this
      ensures value in MessageTypeNames ==> err == None && types == old(types) + [MessageTypeNames[value]]
      ensures value !in MessageTypeNames ==> err == Some(UnknownTypeError(value)) && types == old(types)
    {
      if value !in MessageTypeNames {
        return Some(UnknownTypeError(value));
      }
      types := types + [MessageTypeNames[value]];
      return None;
    }

    /** Contains: whether the type occurs in the filter. */
    function Contains(typ: int): (r: bool)
      reads this
      ensures r <==> typ in types
    {
      IndexOfType(types, typ) >= 0
    }

    /**
     * String: the names of the filter's types joined with ','; splitting the
     * text on ',' gives back one name per type, in filter order.
     */
    function String(): (r: string)
      reads this
      ensures types == [] ==> r == ""
      ensures |types| >= 1 ==> Split(r, ',') == FilterPieces(types)
    {
      var r := FilterText(types);
      if |types| >= 1 then
        FilterTextRoundTrip(types);
        r
      else
        r
    }
  }

  /** No message-type name, registered or decimal, contains a ','. */
  lemma NameHasNoComma(typ: int)
    ensures ',' !in MessageTypeName(typ)
  {
    if typ in MessageTypeNames.Values {
      MessageTypeNamesInverse();
      assert typ in MessageTypeByValue;
    } else {
      var s := IntToDecimal(typ);
      forall k | 0 <= k < |s|
        ensures s[k] != ','
      {
        if typ < 0 && k > 0 {
          assert s[k] == s[1..][k - 1];
        }
      }
    }
  }

  /** strings.IndexByte finds the separator right after a prefix that does not hold it. */
  lemma IndexOfSeparator(p: string, sep: char, t: string)
    requires sep !in p
    ensures IndexOfChar(p + [sep] + t, sep) == |p|
  {
    var s := p + [sep] + t;
    var r := IndexOfChar(s, sep);
    assert s[|p|] == sep;
    assert forall k | 0 <= k < r :: s[k] == s[..r][k];
    assert forall k | 0 <= k < |p| :: s[k] == p[k];
  }

  /** Splitting the join of separator-free pieces gives the pieces back. */
  lemma {:induction false} SplitJoin(pieces: seq<string>, sep: char)
    requires |pieces| >= 1
    requires forall k | 0 <= k < |pieces| :: sep !in pieces[k]
    ensures Split(Join(pieces, sep), sep) == pieces
    decreases |pieces|
  {
    if |pieces| > 1 {
      var head, rest := pieces[0], pieces[1..];
      var joined := Join(rest, sep);
      var s := head + [sep] + joined;
      IndexOfSeparator(head, sep, joined);
      SplitAtSeparator(head, sep, joined);
      SplitJoin(rest, sep);
      assert pieces == [head] + rest;
    }
  }

  /** One step of Split on a separator-free prefix. */
  lemma SplitAtSeparator(p: string, sep: char, t: string)
    requires sep !in p && IndexOfChar(p + [sep] + t, sep) == |p|
    ensures Split(p + [sep] + t, sep) == [p] + Split(t, sep)
  {
    var s := p + [sep] + t;
    assert s[..|p|] == p;
    assert s[|p| + 1..] == t;
  }

  /**
   * The filter's text can be parsed back: splitting it on ',' gives one piece
   * per type, and each piece names its type. A filter built by Set holds only
   * registered types, so each piece is a name Set accepts and maps back to
   * that type.
   */
  lemma FilterTextRoundTrip(types: seq<int>)
    requires |types| >= 1
    ensures |Split(FilterText(types), ',')| == |types|
    ensures forall k | 0 <= k < |types| :: MessageTypeName(types[k]) == Split(FilterText(types), ',')[k]
    ensures forall k | 0 <= k < |types| && types[k] in MessageTypeNames.Values ::
      Split(FilterText(types), ',')[k] in MessageTypeNames
      && MessageTypeNames[Split(FilterText(types), ',')[k]] == types[k]
  {
    var pieces := FilterPieces(types);
    forall k | 0 <= k < |pieces|
      ensures ',' !in pieces[k]
    {
      NameHasNoComma(types[k]);
    }
    SplitJoin(pieces, ',');
  }

  // ---------------------------------------------------------------------------
  // Trace observation points (keep in sync with bpf/lib/trace.h)
  // ---------------------------------------------------------------------------

  const TraceToLxc: u8 := 0
  const TraceToProxy: u8 := 1
  const TraceToHost: u8 := 2
  const TraceToStack: u8 := 3
  const TraceToOverlay: u8 := 4
  const TraceFromLxc: u8 := 5
  const TraceFromProxy: u8 := 6
  const TraceFromHost: u8 := 7
  const TraceFromStack: u8 := 8
  const TraceFromOverlay: u8 := 9
  const TraceFromNetwork: u8 := 10
  const TraceToNetwork: u8 := 11
  const TraceFromCrypto: u8 := 12
  const TraceToCrypto: u8 := 13

  const TraceObservationPoints: map<u8, string> := map[
    TraceToLxc := "to-endpoint",
    TraceToProxy := "to-proxy",
    TraceToHost := "to-host",
    TraceToStack := "to-stack",
    TraceToOverlay := "to-overlay",
    TraceToNetwork := "to-network",
    TraceToCrypto := "to-crypto",
    TraceFromLxc := "from-endpoint",
    TraceFromProxy := "from-proxy",
    TraceFromHost := "from-host",
    TraceFromStack := "from-stack",
    TraceFromOverlay := "from-overlay",
    TraceFromNetwork := "from-network",
    TraceFromCrypto := "from-crypto"
  ]

  /** TraceObservationPoint: the point's name, or its decimal number when it has none. */
  function TraceObservationPoint(obsPoint: u8): (name: string)
    ensures obsPoint in TraceObservationPoints ==> name == TraceObservationPoints[obsPoint]
    ensures obsPoint !in TraceObservationPoints ==> name == NatToDecimal(obsPoint)
  {
    if obsPoint in TraceObservationPoints then TraceObservationPoints[obsPoint] else NatToDecimal(obsPoint)
  }

  /** Every one of the fourteen points 0..13 is named, and the names start with a letter. */
  lemma TracePointsNamed()
    ensures TraceObservationPoints.Keys == {0, 1, 2, 3, 4, 5, 6, 7, 8, 9, 10, 11, 12, 13}
    ensures forall p | p in TraceObservationPoints :: StartsWithLetter(TraceObservationPoints[p])
  {
  }

  /**
   * A point's name is a registered name exactly when the point is named, and
   * points below 14 are the named ones; different points are rendered
   * differently.
   */
  lemma TraceObservationPointCases(a: u8, b: u8)
    ensures (a < 14) <==> StartsWithLetter(TraceObservationPoint(a))
    ensures TraceObservationPoint(a) == TraceObservationPoint(b) && a >= 14 ==> a == b
  {
    TracePointsNamed();
    DecimalIsNoName(a);
    DecimalIsNoName(b);
    if a >= 14 && b >= 14 && TraceObservationPoint(a) == TraceObservationPoint(b) {
      IntToDecimalInjective(a, b);
    }
  }

  // ---------------------------------------------------------------------------
  // Agent notifications
  // ---------------------------------------------------------------------------

  const AgentNotifyUnspec: u32 := 0
  const AgentNotifyGeneric: u32 := 1
  const AgentNotifyStart: u32 := 2
  const AgentNotifyEndpointRegenerateSuccess: u32 := 3
  const AgentNotifyEndpointRegenerateFail: u32 := 4
  const AgentNotifyPolicyUpdated: u32 := 5
  const AgentNotifyPolicyDeleted: u32 := 6
  const AgentNotifyEndpointCreated: u32 := 7
  const AgentNotifyEndpointDeleted: u32 := 8
  const AgentNotifyIPCacheUpserted: u32 := 9
  const AgentNotifyIPCacheDeleted: u32 := 10

  const AgentNotifications: map<u32, string> := map[
    AgentNotifyUnspec := "unspecified",
    AgentNotifyGeneric := "Message",
    AgentNotifyStart := "Cilium agent started",
    AgentNotifyEndpointRegenerateSuccess := "Endpoint regenerated",
    AgentNotifyEndpointCreated := "Endpoint created",
    AgentNotifyEndpointDeleted := "Endpoint deleted",
    AgentNotifyEndpointRegenerateFail := "Failed endpoint regeneration",
    AgentNotifyIPCacheDeleted := "IPCache entry deleted",
    AgentNotifyIPCacheUpserted := "IPCache entry upserted",
    AgentNotifyPolicyUpdated := "Policy updated",
    AgentNotifyPolicyDeleted := "Policy deleted"
  ]

  /** resolveAgentType: the notification's name, or its decimal number when it has none. */
  function ResolveAgentType(t: u32): (name: string)
    ensures t in AgentNotifications ==> name == AgentNotifications[t]
    ensures t !in AgentNotifications ==> name == NatToDecimal(t)
  {
    if t in AgentNotifications then AgentNotifications[t] else NatToDecimal(t)
  }

  /** Every notification name starts with a letter (upper or lower case). */
  predicate StartsWithAnyLetter(s: string)
  {
    |s| > 0 && ('a' <= s[0] <= 'z' || 'A' <= s[0] <= 'Z')
  }

  /**
   * Notification types 0..10 are named; every other type is rendered as a
   * number, which no name is, and different unnamed types render differently.
   */
  lemma ResolveAgentTypeCases(a: u32, b: u32)
    ensures (a <= 10) <==> StartsWithAnyLetter(ResolveAgentType(a))
    ensures ResolveAgentType(a) == ResolveAgentType(b) && a > 10 ==> a == b
  {
    assert AgentNotifications.Keys == {0, 1, 2, 3, 7, 8, 4, 10, 9, 5, 6};
    assert a <= 10 <==> a in {0, 1, 2, 3, 7, 8, 4, 10, 9, 5, 6};
    assert b <= 10 <==> b in {0, 1, 2, 3, 7, 8, 4, 10, 9, 5, 6};
    if a > 10 {
      assert IsDigit(NatToDecimal(a)[0]);
      if ResolveAgentType(a) == ResolveAgentType(b) && b > 10 {
        IntToDecimalInjective(a, b);
      }
    }
  }

  // ---------------------------------------------------------------------------
  // Policy match types
  // ---------------------------------------------------------------------------

  const PolicyMatchNone: int := 0
  const PolicyMatchL3Only: int := 1
  const PolicyMatchL3L4: int := 2
  const PolicyMatchL4Only: int := 3
  const PolicyMatchAll: int := 4
  const PolicyMatchL3Proto: int := 5
  const PolicyMatchProtoOnly: int := 6

  /** PolicyMatchType.String: the fixed name of a known match type, "unknown" otherwise. */
  function PolicyMatchTypeString(m: int): (name: string)
    ensures name != "unknown" <==> PolicyMatchNone <= m <= PolicyMatchProtoOnly
  {
    if m == PolicyMatchL3Only then "L3-Only"
    else if m == PolicyMatchL3L4 then "L3-L4"
    else if m == PolicyMatchL4Only then "L4-Only"
    else if m == PolicyMatchAll then "all"
    else if m == PolicyMatchNone then "none"
    else if m == PolicyMatchL3Proto then "L3-Proto"
    else if m == PolicyMatchProtoOnly then "Proto-Only"
    else "unknown"
  }

  /**
   * Exactly the seven match types 0..6 have a name of their own, and those
   * names are pairwise different.
   */
  lemma PolicyMatchTypeNames(a: int, b: int)
    ensures PolicyMatchTypeString(a) != "unknown" <==> 0 <= a <= 6
    ensures PolicyMatchTypeString(a) == PolicyMatchTypeString(b) && 0 <= a <= 6 ==> a == b
  {
  }
}
