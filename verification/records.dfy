/** The persisted node and route records (the `Node` and `Route` document
    schemas): enumerations, the string setters `trim` and `lowercase`, the
    required/enum/min/max validators, defaults, and the unique indexes. */
module Records {
  import opened Base

  type UserId = string

  // ---------------------------------------------------------------------
  // String setters

  /** Code points of the characters `String.prototype.trim` removes:
      ECMAScript white space and line terminators. */
  const SpaceCodes: set<int> := {0x09, 0x0A, 0x0B, 0x0C, 0x0D, 0x20, 0xA0, 0x1680,
                                 0x2028, 0x2029, 0x202F, 0x205F, 0x3000, 0xFEFF}

  predicate IsSpace(c: char)
  {
    c as int in SpaceCodes || 0x2000 <= c as int <= 0x200A
  }

  predicate Trimmed(s: string)
  {
    s == [] || (!IsSpace(s[0]) && !IsSpace(s[|s| - 1]))
  }

  /** Length of the white-space prefix. */
  function LeadingSpace(s: string): (n: nat)
    ensures n <= |s|
    ensures forall k :: 0 <= k < n ==> IsSpace(s[k])
    ensures n == |s| || !IsSpace(s[n])
  {
    if s != [] && IsSpace(s[0]) then 1 + LeadingSpace(s[1..]) else 0
  }

  /** Length of the white-space suffix. */
  function TrailingSpace(s: string): (n: nat)
    ensures n <= |s|
    ensures forall k :: |s| - n <= k < |s| ==> IsSpace(s[k])
    ensures n == |s| || !IsSpace(s[|s| - n - 1])
  {
    if s != [] && IsSpace(s[|s| - 1]) then 1 + TrailingSpace(s[..|s| - 1]) else 0
  }

  /** The `trim: true` setter: `s` less its white-space prefix and suffix. */
  function Trim(s: string): (r: string)
    ensures Trimmed(r)
    ensures |r| <= |s|
    ensures exists i :: TrimCut(s, r, i)
  {
    var i := LeadingSpace(s);
    var j := |s| - TrailingSpace(s[i..]);
    assert TrimCut(s, s[i..j], i);
    s[i..j]
  }

  /** `r` is `s` with `i` leading and some trailing white space removed. */
  predicate TrimCut(s: string, r: string, i: int)
  {
    && 0 <= i <= |s| - |r|
    && r == s[i..i + |r|]
    && (forall k :: 0 <= k < i ==> IsSpace(s[k]))
    && (forall k :: i + |r| <= k < |s| ==> IsSpace(s[k]))
  }

  /** A trimmed string is its own trim, so the setter is idempotent. */
  lemma TrimFixesTrimmed(s: string)
    requires Trimmed(s)
    ensures Trim(s) == s
  {
    assert LeadingSpace(s) == 0;
    assert s[0..] == s;
    assert TrailingSpace(s) == 0;
  }

  lemma TrimIdempotent(s: string)
    ensures Trim(Trim(s)) == Trim(s)
  {
    TrimFixesTrimmed(Trim(s));
  }

  function LowerChar(c: char): char
  {
    if 'A' <= c <= 'Z' then (c as int - 'A' as int + 'a' as int) as char else c
  }

  /** The `lowercase: true` setter, on the ASCII letters: each upper-case
      letter becomes its lower-case partner, 32 code points further on, and
      every other character is kept. */
  function Lower(s: string): (r: string)
    ensures |r| == |s|
    ensures forall i :: 0 <= i < |r| ==> !('A' <= r[i] <= 'Z')
    ensures forall i :: 0 <= i < |s| && !('A' <= s[i] <= 'Z') ==> r[i] == s[i]
    ensures forall i :: 0 <= i < |s| && 'A' <= s[i] <= 'Z' ==> r[i] as int == s[i] as int + 32
  {
    seq(|s|, i requires 0 <= i < |s| => LowerChar(s[i]))
  }

  lemma LowerIdempotent(s: string)
    ensures Lower(Lower(s)) == Lower(s)
  {
  }

  // ---------------------------------------------------------------------
  // Enumerations

  datatype NodeType = Supplier | Warehouse | Distributor | Retailer | Manufacturer | OtherType

  function NodeTypeName(t: NodeType): string
  {
    match t
    case Supplier => "supplier"
    case Warehouse => "warehouse"
    case Distributor => "distributor"
    case Retailer => "retailer"
    case Manufacturer => "manufacturer"
    case OtherType => "other"
  }

  /** The enum validator of `type`: exactly the six names are accepted. */
  function NodeTypeFromName(s: string): (r: Option<NodeType>)
    ensures forall t :: r == Some(t) <==> NodeTypeName(t) == s
  {
    if s == "supplier" then Some(Supplier)
    else if s == "warehouse" then Some(Warehouse)
    else if s == "distributor" then Some(Distributor)
    else if s == "retailer" then Some(Retailer)
    else if s == "manufacturer" then Some(Manufacturer)
    else if s == "other" then Some(OtherType)
    else None
  }

  datatype NodeStatus = NodeActive | NodeInactive | NodeDisrupted

  function NodeStatusName(t: NodeStatus): string
  {
    match t
    case NodeActive => "active"
    case NodeInactive => "inactive"
    case NodeDisrupted => "disrupted"
  }

  function NodeStatusFromName(s: string): (r: Option<NodeStatus>)
    ensures forall t :: r == Some(t) <==> NodeStatusName(t) == s
  {
    if s == "active" then Some(NodeActive)
    else if s == "inactive" then Some(NodeInactive)
    else if s == "disrupted" then Some(NodeDisrupted)
    else None
  }

  datatype RouteStatus = RouteActive | RouteInactive | RouteDisrupted | RouteCongested

  function RouteStatusName(t: RouteStatus): string
  {
    match t
    case RouteActive => "active"
    case RouteInactive => "inactive"
    case RouteDisrupted => "disrupted"
    case RouteCongested => "congested"
  }

  function RouteStatusFromName(s: string): (r: Option<RouteStatus>)
    ensures forall t :: r == Some(t) <==> RouteStatusName(t) == s
  {
    if s == "active" then Some(RouteActive)
    else if s == "inactive" then Some(RouteInactive)
    else if s == "disrupted" then Some(RouteDisrupted)
    else if s == "congested" then Some(RouteCongested)
    else None
  }

  datatype TransportMode = Road | Rail | Air | Sea | Multimodal | OtherMode

  function TransportModeName(t: TransportMode): string
  {
    match t
    case Road => "road"
    case Rail => "rail"
    case Air => "air"
    case Sea => "sea"
    case Multimodal => "multimodal"
    case OtherMode => "other"
  }

  function TransportModeFromName(s: string): (r: Option<TransportMode>)
    ensures forall t :: r == Some(t) <==> TransportModeName(t) == s
  {
    if s == "road" then Some(Road)
    else if s == "rail" then Some(Rail)
    else if s == "air" then Some(Air)
    else if s == "sea" then Some(Sea)
    else if s == "multimodal" then Some(Multimodal)
    else if s == "other" then Some(OtherMode)
    else None
  }

  datatype RiskLevel = Low | Medium | High | Critical

  function RiskLevelName(t: RiskLevel): string
  {
    match t
    case Low => "low"
    case Medium => "medium"
    case High => "high"
    case Critical => "critical"
  }

  function RiskLevelFromName(s: string): (r: Option<RiskLevel>)
    ensures forall t :: r == Some(t) <==> RiskLevelName(t) == s
  {
    if s == "low" then Some(Low)
    else if s == "medium" then Some(Medium)
    else if s == "high" then Some(High)
    else if s == "critical" then Some(Critical)
    else None
  }

  // ---------------------------------------------------------------------
  // Records

  /** The analysis results stored on a node; a new node carries zeros and
      two false flags. */
  datatype StoredMetrics = StoredMetrics(
    degreeCentrality: real,
    betweennessCentrality: real,
    closenessCentrality: real,
    clusteringCoefficient: real,
    isBottleneck: bool,
    isCritical: bool)

  const DefaultMetrics := StoredMetrics(0.0, 0.0, 0.0, 0.0, false, false)

  datatype NodeRecord = NodeRecord(
    nodeId: string,
    name: string,
    nodeType: NodeType,
    latitude: real,
    longitude: real,
    capacity: real,
    region: Option<string>,
    country: Option<string>,
    city: Option<string>,
    status: NodeStatus,
    metrics: StoredMetrics,
    user: Option<UserId>)

  datatype RouteRecord = RouteRecord(
    source: string,
    target: string,
    distance: real,
    cost: real,
    time: real,
    capacity: real,
    status: RouteStatus,
    transportMode: TransportMode,
    riskLevel: RiskLevel,
    user: Option<UserId>)

  /** The document fields as submitted, before setters, defaults and
      validators; `None` is an absent field. */
  datatype NodeInput = NodeInput(
    nodeId: Option<string>,
    name: Option<string>,
    nodeType: Option<string>,
    latitude: Option<real>,
    longitude: Option<real>,
    capacity: Option<real>,
    region: Option<string>,
    country: Option<string>,
    city: Option<string>,
    status: Option<string>,
    user: Option<UserId>)

  datatype RouteInput = RouteInput(
    source: Option<string>,
    target: Option<string>,
    distance: Option<real>,
    cost: Option<real>,
    time: Option<real>,
    capacity: Option<real>,
    status: Option<string>,
    transportMode: Option<string>,
    riskLevel: Option<string>,
    user: Option<UserId>)

  /** One failed validator, named by the document path it guards. */
  datatype Violation = Required(path: string) | NotInEnum(path: string)
                     | BelowMin(path: string) | AboveMax(path: string)

  function TrimOpt(s: Option<string>): Option<string>
  {
    if s.None? then None else Some(Trim(s.value))
  }

  /** The schema's invariants on a stored node. */
  predicate WellFormedNode(n: NodeRecord)
  {
    && n.nodeId != "" && Trimmed(n.nodeId)
    && n.name != "" && Trimmed(n.name)
    && -90.0 <= n.latitude <= 90.0
    && -180.0 <= n.longitude <= 180.0
    && (n.region.Some? ==> Trimmed(n.region.value))
    && (n.country.Some? ==> Trimmed(n.country.value))
    && (n.city.Some? ==> Trimmed(n.city.value))
  }

  /** The schema's invariants on a stored route. */
  predicate WellFormedRoute(r: RouteRecord)
  {
    && r.source != "" && Trimmed(r.source)
    && r.target != "" && Trimmed(r.target)
    && r.distance >= 0.0 && r.cost >= 0.0 && r.time >= 0.0 && r.capacity >= 0.0
  }

  // Per-path validation: the first failing validator of a path, if any.

  function RequiredString(path: string, v: Option<string>): seq<Violation>
  {
    if v.None? || Trim(v.value) == "" then [Required(path)] else []
  }

  function RequiredRange(path: string, v: Option<real>, lo: real, hi: real): seq<Violation>
  {
    if v.None? then [Required(path)]
    else if v.value < lo then [BelowMin(path)]
    else if v.value > hi then [AboveMax(path)]
    else []
  }

  function OptionalMin(path: string, v: Option<real>): seq<Violation>
  {
    if v.Some? && v.value < 0.0 then [BelowMin(path)] else []
  }

  function OptionalEnum(path: string, v: Option<string>, known: bool): seq<Violation>
  {
    if v.Some? && !known then [NotInEnum(path)] else []
  }

  /** What the validators demand of a node document, field by field. */
  predicate NodeAcceptable(i: NodeInput)
  {
    && i.nodeId.Some? && Trim(i.nodeId.value) != ""
    && i.name.Some? && Trim(i.name.value) != ""
    && i.nodeType.Some? && (exists t :: NodeTypeName(t) == Lower(i.nodeType.value))
    && i.latitude.Some? && -90.0 <= i.latitude.value <= 90.0
    && i.longitude.Some? && -180.0 <= i.longitude.value <= 180.0
    && (i.status.Some? ==> exists t :: NodeStatusName(t) == i.status.value)
  }

  function NodeViolations(i: NodeInput): seq<Violation>
  {
    RequiredString("nodeId", i.nodeId)
    + RequiredString("name", i.name)
    + TypeViolations(i.nodeType)
    + RequiredRange("latitude", i.latitude, -90.0, 90.0)
    + RequiredRange("longitude", i.longitude, -180.0, 180.0)
    + OptionalEnum("status", i.status, i.status.Some? && NodeStatusFromName(i.status.value).Some?)
  }

  /** `type` is required, lower-cased by its setter, then checked against the enum. */
  function TypeViolations(v: Option<string>): seq<Violation>
  {
    if v.None? || v.value == "" then [Required("type")]
    else if NodeTypeFromName(Lower(v.value)).None? then [NotInEnum("type")]
    else []
  }

  lemma TypeViolationsExact(v: Option<string>)
    ensures TypeViolations(v) == [] <==> v.Some? && exists t :: NodeTypeName(t) == Lower(v.value)
  {
    if v.Some? && exists t :: NodeTypeName(t) == Lower(v.value) {
      var t :| NodeTypeName(t) == Lower(v.value);
      assert v.value != "";
      assert NodeTypeFromName(Lower(v.value)) == Some(t);
    }
  }

  lemma NodeViolationsExact(i: NodeInput)
    ensures NodeViolations(i) == [] <==> NodeAcceptable(i)
  {
    var a := RequiredString("nodeId", i.nodeId);
    var b := RequiredString("name", i.name);
    var c := TypeViolations(i.nodeType);
    var d := RequiredRange("latitude", i.latitude, -90.0, 90.0);
    var e := RequiredRange("longitude", i.longitude, -180.0, 180.0);
    var f := OptionalEnum("status", i.status, i.status.Some? && NodeStatusFromName(i.status.value).Some?);
    assert NodeViolations(i) == a + b + c + d + e + f;
    assert |a + b + c + d + e + f| == |a| + |b| + |c| + |d| + |e| + |f|;
    TypeViolationsExact(i.nodeType);
    if i.status.Some? {
      assert NodeStatusFromName(i.status.value).Some? <==> exists t :: NodeStatusName(t) == i.status.value;
    }
  }

  /** Saving a node document: setters, validators, then defaults. */
  function MakeNode(i: NodeInput): (r: Result<NodeRecord, seq<Violation>>)
    ensures r.Success? <==> NodeAcceptable(i)
    ensures r.Failure? ==> r.error != []
    ensures r.Success? ==>
      && WellFormedNode(r.value)
      && r.value.nodeId == Trim(i.nodeId.value)
      && NodeTypeName(r.value.nodeType) == Lower(i.nodeType.value)
      && (i.status.None? ==> r.value.status == NodeActive)
      && (i.status.Some? ==> NodeStatusName(r.value.status) == i.status.value)
      && r.value.name == Trim(i.name.value)
      && r.value.latitude == i.latitude.value && r.value.longitude == i.longitude.value
      && (i.capacity.None? ==> r.value.capacity == 0.0)
      && (i.capacity.Some? ==> r.value.capacity == i.capacity.value)
      && (r.value.region.Some? <==> i.region.Some?)
      && (i.region.Some? ==> r.value.region.value == Trim(i.region.value))
      && (r.value.country.Some? <==> i.country.Some?)
      && (i.country.Some? ==> r.value.country.value == Trim(i.country.value))
      && (r.value.city.Some? <==> i.city.Some?)
      && (i.city.Some? ==> r.value.city.value == Trim(i.city.value))
      && r.value.metrics == DefaultMetrics
      && r.value.user == i.user
  {
    var errs := NodeViolations(i);
    NodeViolationsExact(i);
    if errs != [] then Failure(errs)
    else
      Success(NodeRecord(
        Trim(i.nodeId.value),
        Trim(i.name.value),
        NodeTypeFromName(Lower(i.nodeType.value)).value,
        i.latitude.value,
        i.longitude.value,
        if i.capacity.None? then 0.0 else i.capacity.value,
        TrimOpt(i.region),
        TrimOpt(i.country),
        TrimOpt(i.city),
        if i.status.None? then NodeActive else NodeStatusFromName(i.status.value).value,
        DefaultMetrics,
        i.user))
  }

  function OptName<T>(v: Option<T>, name: T -> string): Option<string>
  {
    if v.None? then None else Some(name(v.value))
  }

  function NodeAsInput(n: NodeRecord): NodeInput
  {
    NodeInput(Some(n.nodeId), Some(n.name), Some(NodeTypeName(n.nodeType)),
              Some(n.latitude), Some(n.longitude), Some(n.capacity),
              n.region, n.country, n.city, Some(NodeStatusName(n.status)), n.user)
  }

  lemma TrimOptFixes(s: Option<string>)
    requires s.Some? ==> Trimmed(s.value)
    ensures TrimOpt(s) == s
  {
    if s.Some? {
      TrimFixesTrimmed(s.value);
    }
  }

  /** Every well-formed node with fresh metrics is what saving its own fields
      produces: validation accepts exactly the stored shape. */
  lemma NodeRoundTrip(n: NodeRecord)
    requires WellFormedNode(n) && n.metrics == DefaultMetrics
    ensures MakeNode(NodeAsInput(n)) == Success(n)
  {
    TrimFixesTrimmed(n.nodeId);
    TrimFixesTrimmed(n.name);
    TrimOptFixes(n.region);
    TrimOptFixes(n.country);
    TrimOptFixes(n.city);
    var i := NodeAsInput(n);
    var tn := NodeTypeName(n.nodeType);
    assert Lower(tn) == tn;
    assert NodeTypeFromName(tn) == Some(n.nodeType);
    assert NodeStatusFromName(NodeStatusName(n.status)) == Some(n.status);
    assert NodeAcceptable(i);
    NodeViolationsExact(i);
  }

  /** What the validators demand of a route document, field by field. */
  predicate RouteAcceptable(i: RouteInput)
  {
    && i.source.Some? && Trim(i.source.value) != ""
    && i.target.Some? && Trim(i.target.value) != ""
    && (i.distance.Some? ==> i.distance.value >= 0.0)
    && (i.cost.Some? ==> i.cost.value >= 0.0)
    && (i.time.Some? ==> i.time.value >= 0.0)
    && (i.capacity.Some? ==> i.capacity.value >= 0.0)
    && (i.status.Some? ==> exists t :: RouteStatusName(t) == i.status.value)
    && (i.transportMode.Some? ==> exists t :: TransportModeName(t) == i.transportMode.value)
    && (i.riskLevel.Some? ==> exists t :: RiskLevelName(t) == i.riskLevel.value)
  }

  function RouteViolations(i: RouteInput): seq<Violation>
  {
    RequiredString("source", i.source)
    + RequiredString("target", i.target)
    + OptionalMin("distance", i.distance)
    + OptionalMin("cost", i.cost)
    + OptionalMin("time", i.time)
    + OptionalMin("capacity", i.capacity)
    + OptionalEnum("status", i.status, i.status.Some? && RouteStatusFromName(i.status.value).Some?)
    + OptionalEnum("transportMode", i.transportMode,
                   i.transportMode.Some? && TransportModeFromName(i.transportMode.value).Some?)
    + OptionalEnum("riskLevel", i.riskLevel, i.riskLevel.Some? && RiskLevelFromName(i.riskLevel.value).Some?)
  }

  function OrZero(v: Option<real>): real
  {
    if v.None? then 0.0 else v.value
  }

  /** Saving a route document: setters, validators, then defaults. */
  function MakeRoute(i: RouteInput): (r: Result<RouteRecord, seq<Violation>>)
    ensures r.Success? <==> RouteAcceptable(i)
    ensures r.Failure? ==> r.error != []
    ensures r.Success? ==>
      && WellFormedRoute(r.value)
      && r.value.source == Trim(i.source.value)
      && r.value.target == Trim(i.target.value)
      && (i.distance.None? ==> r.value.distance == 0.0)
      && (i.distance.Some? ==> r.value.distance == i.distance.value)
      && (i.cost.None? ==> r.value.cost == 0.0)
      && (i.cost.Some? ==> r.value.cost == i.cost.value)
      && (i.time.None? ==> r.value.time == 0.0)
      && (i.time.Some? ==> r.value.time == i.time.value)
      && (i.capacity.None? ==> r.value.capacity == 0.0)
      && (i.capacity.Some? ==> r.value.capacity == i.capacity.value)
      && (i.status.None? ==> r.value.status == RouteActive)
      && (i.status.Some? ==> RouteStatusName(r.value.status) == i.status.value)
      && (i.transportMode.None? ==> r.value.transportMode == Road)
      && (i.transportMode.Some? ==> TransportModeName(r.value.transportMode) == i.transportMode.value)
      && (i.riskLevel.None? ==> r.value.riskLevel == Low)
      && (i.riskLevel.Some? ==> RiskLevelName(r.value.riskLevel) == i.riskLevel.value)
      && r.value.user == i.user
  {
    var errs := RouteViolations(i);
    if errs != [] then Failure(errs)
    else
      Success(RouteRecord(
        Trim(i.source.value),
        Trim(i.target.value),
        OrZero(i.distance),
        OrZero(i.cost),
        OrZero(i.time),
        OrZero(i.capacity),
        if i.status.None? then RouteActive else RouteStatusFromName(i.status.value).value,
        if i.transportMode.None? then Road else TransportModeFromName(i.transportMode.value).value,
        if i.riskLevel.None? then Low else RiskLevelFromName(i.riskLevel.value).value,
        i.user))
  }

  function RouteAsInput(r: RouteRecord): RouteInput
  {
    RouteInput(Some(r.source), Some(r.target), Some(r.distance), Some(r.cost), Some(r.time),
               Some(r.capacity), Some(RouteStatusName(r.status)),
               Some(TransportModeName(r.transportMode)), Some(RiskLevelName(r.riskLevel)), r.user)
  }

  /** Every well-formed route is what saving its own fields produces. */
  lemma RouteRoundTrip(r: RouteRecord)
    requires WellFormedRoute(r)
    ensures MakeRoute(RouteAsInput(r)) == Success(r)
  {
    TrimFixesTrimmed(r.source);
    TrimFixesTrimmed(r.target);
    assert RouteViolations(RouteAsInput(r)) == [];
  }

  // ---------------------------------------------------------------------
  // Unique indexes

  /** `nodeId` is unique across the collection. */
  predicate UniqueNodeIds(nodes: seq<NodeRecord>)
  {
    forall i, j :: 0 <= i < j < |nodes| ==> nodes[i].nodeId != nodes[j].nodeId
  }

  /** `(source, target, user)` is unique across the collection. */
  predicate UniqueRouteKeys(routes: seq<RouteRecord>)
  {
    forall i, j :: 0 <= i < j < |routes| ==>
      (routes[i].source, routes[i].target, routes[i].user) != (routes[j].source, routes[j].target, routes[j].user)
  }

  /** The records a request sees: those of one owner (`None` for anonymous data). */
  predicate OwnedBy(routes: seq<RouteRecord>, owner: Option<UserId>)
  {
    forall i :: 0 <= i < |routes| ==> routes[i].user == owner
  }

  /** Among one owner's routes no ordered endpoint pair repeats. */
  predicate DistinctRoutePairs(routes: seq<RouteRecord>)
  {
    forall i, j :: 0 <= i < j < |routes| ==>
      (routes[i].source, routes[i].target) != (routes[j].source, routes[j].target)
  }

  lemma OneOwnerPairsDistinct(routes: seq<RouteRecord>, owner: Option<UserId>)
    requires UniqueRouteKeys(routes) && OwnedBy(routes, owner)
    ensures DistinctRoutePairs(routes)
  {
    forall i, j | 0 <= i < j < |routes|
      ensures (routes[i].source, routes[i].target) != (routes[j].source, routes[j].target)
    {
      assert (routes[i].source, routes[i].target, routes[i].user) != (routes[j].source, routes[j].target, routes[j].user);
    }
  }
}
