/** Validation of the configuration, after the JSON text has been read into fields. */
module ConfigLoader {
  import opened Types

  datatype ConfigError = InvalidSchema | MissingField | InvalidValue

  /** A JSON member that may be absent or of another type than the loader wants. */
  datatype Field<+T> = Absent | WrongType | Present(value: T)

  /** A hexadecimal member; `Overflow` stands for a number above 32 bits. */
  datatype HexField = HexAbsent | NotString | NotNumber | Overflow | Hex(value: bv32)

  datatype RawRssi = RawRssi(connectMin: Field<int>, warn: Field<int>, drop: Field<int>)

  datatype RawClass = RawClass(
    id: Field<string>,
    classid: HexField,
    cgroupPath: Field<string>,
    interfaces: Field<seq<Field<string>>>,
    mptcpEnabled: Field<bool>,
    routingTable: Field<int>,
    mark: HexField,
    strictIsolation: Field<bool>,
    rssi: Field<RawRssi>)

  function ParseHex(f: HexField): Result<bv32, ConfigError> {
    match f
    case HexAbsent => Err(MissingField)
    case Hex(n) => Ok(n)
    case _ => Err(InvalidValue)
  }

  /** An integer of the configuration is cut to its low 32 bits before anything looks at it. */
  function ToInt32(x: int): (r: int32)
    ensures (r - x) % TWO32 == 0
    ensures -0x8000_0000 <= x < 0x8000_0000 ==> r == x
  {
    var low := x % TWO32;
    if low < 0x8000_0000 then low else low - TWO32
  }

  /** A threshold that is absent or no integer silently keeps its default. */
  function ParseRssi(r: RawRssi): RssiThresholds {
    RssiThresholds(
      if r.connectMin.Present? then ToInt32(r.connectMin.value) else DEFAULT_RSSI.connectMin,
      if r.warn.Present? then ToInt32(r.warn.value) else DEFAULT_RSSI.warn,
      if r.drop.Present? then ToInt32(r.drop.value) else DEFAULT_RSSI.drop)
  }

  function ParseNames(fs: seq<Field<string>>): (r: Result<seq<string>, ConfigError>)
    ensures r.Ok? <==> forall k :: 0 <= k < |fs| ==> fs[k].Present? && fs[k].value != ""
    ensures r.Ok? ==> |r.value| == |fs| && forall k :: 0 <= k < |fs| ==> r.value[k] == fs[k].value
    ensures r.Err? ==> r.error == InvalidValue
  {
    if fs == [] then Ok([])
    else if !fs[0].Present? || fs[0].value == "" then Err(InvalidValue)
    else
      match ParseNames(fs[1..])
      case Err(e) => Err(e)
      case Ok(rest) =>
        assert forall k :: 1 <= k < |fs| ==> fs[k] == fs[1..][k - 1];
        Ok([fs[0].value] + rest)
  }

  /** What an optional integer member stands for, whatever the others say. */
  ghost predicate StandsFor(t: int32, member: Field<int>, default: int32) {
    if member.Present? then t == ToInt32(member.value) else t == default
  }

  /** The thresholds are those of the members; -70, -75 and -85 stand in for members that are absent or no integers. */
  ghost predicate ReadsRssi(t: RssiThresholds, j: Field<RawRssi>) {
    if j.Present? then
      && StandsFor(t.connectMin, j.value.connectMin, -70) && StandsFor(t.warn, j.value.warn, -75)
      && StandsFor(t.drop, j.value.drop, -85)
    else t.connectMin == -70 && t.warn == -75 && t.drop == -85
  }

  /** The warn threshold is above the drop threshold, each with what stands in for it. */
  predicate WarnsFirst(r: RawRssi) {
    (if r.warn.Present? then ToInt32(r.warn.value) else -75) > (if r.drop.Present? then ToInt32(r.drop.value) else -85)
  }

  /** The members a class must and may have. */
  ghost predicate Acceptable(j: RawClass) {
    && j.id.Present? && j.id.value != ""
    && j.cgroupPath.Present? && j.cgroupPath.value != ""
    && j.classid.Hex? && j.classid.value != 0 && j.mark.Hex? && j.mark.value != 0
    && j.interfaces.Present? && j.interfaces.value != []
    && (forall k :: 0 <= k < |j.interfaces.value| ==>
          j.interfaces.value[k].Present? && j.interfaces.value[k].value != "")
    && j.mptcpEnabled.Present?
    && j.routingTable.Present? && 1 <= ToInt32(j.routingTable.value) <= 65534
    && !j.strictIsolation.WrongType?
    && !j.rssi.WrongType? && (j.rssi.Present? ==> WarnsFirst(j.rssi.value))
  }

  /** The class says what its members say. */
  ghost predicate Reads(c: PathClassConfig, j: RawClass)
    requires Acceptable(j)
  {
    && c.id == j.id.value && c.classid == j.classid.value && c.mark == j.mark.value
    && c.cgroupPath == j.cgroupPath.value && c.routingTable == ToInt32(j.routingTable.value)
    && c.mptcpEnabled == j.mptcpEnabled.value
    && (c.strictIsolation <==> j.strictIsolation == Present(true))
    && |c.interfaces| == |j.interfaces.value|
    && (forall k :: 0 <= k < |c.interfaces| ==> c.interfaces[k] == j.interfaces.value[k].value)
    && ReadsRssi(c.rssi, j.rssi)
  }

  /**
   Exactly the acceptable objects are accepted. Every accepted class is well formed; in particular its warn threshold
   is above its drop threshold.
   */
  function ParsePathClass(j: RawClass): (r: Result<PathClassConfig, ConfigError>)
    ensures r.Ok? <==> Acceptable(j)
    ensures r.Ok? ==> ClassOk(r.value) && Reads(r.value, j)
  {
    if !j.id.Present? then Err(MissingField)
    else if j.id.value == "" then Err(InvalidValue)
    else
      var classid := ParseHex(j.classid);
      if classid.Err? then Err(classid.error)
      else if classid.value == 0 then Err(InvalidValue)
      else if !j.cgroupPath.Present? then Err(MissingField)
      else if j.cgroupPath.value == "" then Err(InvalidValue)
      else if !j.interfaces.Present? then Err(MissingField)
      else if j.interfaces.value == [] then Err(InvalidValue)
      else
        var names := ParseNames(j.interfaces.value);
        if names.Err? then Err(names.error)
        else if !j.mptcpEnabled.Present? then Err(MissingField)
        else if !j.routingTable.Present? then Err(MissingField)
        else if !(1 <= ToInt32(j.routingTable.value) <= 65534) then Err(InvalidValue)
        else
          var mark := ParseHex(j.mark);
          if mark.Err? then Err(mark.error)
          else if mark.value == 0 then Err(InvalidValue)
          else if j.strictIsolation.WrongType? then Err(InvalidValue)
          else if j.rssi.WrongType? then Err(InvalidValue)
          else
            var rssi := if j.rssi.Present? then ParseRssi(j.rssi.value) else DEFAULT_RSSI;
            if j.rssi.Present? && rssi.warn <= rssi.drop then Err(InvalidValue)
            else Ok(PathClassConfig(
                      j.id.value, classid.value, j.cgroupPath.value, names.value,
                      j.mptcpEnabled.value, ToInt32(j.routingTable.value), mark.value,
                      j.strictIsolation.Present? && j.strictIsolation.value, rssi))
  }

  /** What is wrong with the k-th member, in the order in which they are read, taken by itself. */
  ghost function Fault(j: RawClass, k: nat): Option<ConfigError>
    requires k < 9
  {
    match k
    case 0 => if !j.id.Present? then Some(MissingField) else if j.id.value == "" then Some(InvalidValue) else None
    case 1 => HexFault(j.classid)
    case 2 =>
      if !j.cgroupPath.Present? then Some(MissingField)
      else if j.cgroupPath.value == "" then Some(InvalidValue) else None
    case 3 =>
      if !j.interfaces.Present? then Some(MissingField)
      else if j.interfaces.value == [] || exists f <- j.interfaces.value :: !f.Present? || f.value == ""
      then Some(InvalidValue) else None
    case 4 => if !j.mptcpEnabled.Present? then Some(MissingField) else None
    case 5 =>
      if !j.routingTable.Present? then Some(MissingField)
      else if 1 <= ToInt32(j.routingTable.value) <= 65534 then None else Some(InvalidValue)
    case 6 => HexFault(j.mark)
    case 7 => if j.strictIsolation.WrongType? then Some(InvalidValue) else None
    case _ =>
      if j.rssi.WrongType? || (j.rssi.Present? && !WarnsFirst(j.rssi.value)) then Some(InvalidValue) else None
  }

  ghost function HexFault(f: HexField): Option<ConfigError> {
    match f
    case HexAbsent => Some(MissingField)
    case Hex(n) => if n == 0 then Some(InvalidValue) else None
    case _ => Some(InvalidValue)
  }

  /** A refusal reports the first member, in reading order, with which something is wrong, and what that is. */
  lemma FirstFaultReported(j: RawClass, k: nat)
    requires k < 9 && Fault(j, k).Some? && forall i :: 0 <= i < k ==> Fault(j, i).None?
    ensures ParsePathClass(j) == Err(Fault(j, k).value)
  {
    assert k > 0 ==> Fault(j, 0) == None;
    assert k > 1 ==> Fault(j, 1) == None;
    assert k > 2 ==> Fault(j, 2) == None;
    assert k > 3 ==> Fault(j, 3) == None;
    assert k > 4 ==> Fault(j, 4) == None;
    assert k > 5 ==> Fault(j, 5) == None;
    assert k > 6 ==> Fault(j, 6) == None;
    assert k > 7 ==> Fault(j, 7) == None;
  }

  /**
   The documented range is checked after the cut. An accepted class gets the table its configuration names exactly when
   that number is in range; other accepted numbers, and there are some, exceed a number in range by a multiple of 2^32.
   */
  lemma TableAsConfiguredIff(j: RawClass)
    requires Acceptable(j)
    ensures var c := ParsePathClass(j).value;
      && (c.routingTable == j.routingTable.value <==> 1 <= j.routingTable.value <= 65534)
      && (j.routingTable.value - c.routingTable) % TWO32 == 0
    ensures forall k :: Acceptable(j.(routingTable := Present(j.routingTable.value + k * TWO32)))
  {
    var x := j.routingTable.value;
    CutBack(x);
    forall k ensures Acceptable(j.(routingTable := Present(x + k * TWO32))) {
      CutIgnoresMultiples(x, k);
      assert ToInt32(x + k * TWO32) == ToInt32(x);
    }
  }

  lemma CutBack(x: int)
    ensures (x - ToInt32(x)) % TWO32 == 0
  {
    var low := x % TWO32;
    assert x - low == TWO32 * (x / TWO32);
  }

  lemma CutIgnoresMultiples(x: int, k: int)
    ensures (x + k * TWO32) % TWO32 == x % TWO32
  {
    assert x + k * TWO32 == TWO32 * (x / TWO32 + k) + x % TWO32;
  }

  /** Accepts exactly the class lists that are pairwise distinct in all four keys. */
  method ValidateClasses(classes: seq<PathClassConfig>) returns (r: Result<(), ConfigError>)
    ensures r.Ok? <==> Distinct(classes)
    ensures r.Err? ==> r.error == InvalidValue
  {
    var seenIds: set<string> := {};
    var seenClassids: set<bv32> := {};
    var seenMarks: set<bv32> := {};
    var seenTables: set<nat> := {};
    for n := 0 to |classes|
      invariant seenIds == set k | 0 <= k < n :: classes[k].id
      invariant seenClassids == set k | 0 <= k < n :: classes[k].classid
      invariant seenMarks == set k | 0 <= k < n :: classes[k].mark
      invariant seenTables == set k | 0 <= k < n :: classes[k].routingTable
      invariant Distinct(classes[..n])
    {
      var c := classes[n];
      if c.id in seenIds || c.classid in seenClassids || c.mark in seenMarks || c.routingTable in seenTables {
        return Err(InvalidValue);
      }
      seenIds := seenIds + {c.id};
      seenClassids := seenClassids + {c.classid};
      seenMarks := seenMarks + {c.mark};
      seenTables := seenTables + {c.routingTable};
    }
    assert classes[..|classes|] == classes;
    return Ok(());
  }

  /** Load stops at the first bad class; what it returns satisfies `Loaded`. */
  method LoadFromArray(raw: seq<RawClass>) returns (r: Result<seq<PathClassConfig>, ConfigError>)
    ensures r.Ok? ==> Loaded(r.value) && |r.value| == |raw|
    ensures r.Ok? ==> forall k :: 0 <= k < |raw| ==> ParsePathClass(raw[k]) == Ok(r.value[k])
    ensures r.Err? ==>
      || (raw == [] && r.error == InvalidSchema)
      || (exists k :: 0 <= k < |raw| && ParsePathClass(raw[k]) == Err(r.error)
                      && forall i :: 0 <= i < k ==> ParsePathClass(raw[i]).Ok?)
      || (r.error == InvalidValue && forall cs: seq<PathClassConfig> ::
            |cs| == |raw| && (forall k :: 0 <= k < |raw| ==> ParsePathClass(raw[k]) == Ok(cs[k])) ==> !Distinct(cs))
  {
    if raw == [] { return Err(InvalidSchema); }
    var classes: seq<PathClassConfig> := [];
    for n := 0 to |raw|
      invariant |classes| == n
      invariant forall k :: 0 <= k < n ==> ParsePathClass(raw[k]) == Ok(classes[k])
    {
      var c := ParsePathClass(raw[n]);
      if c.Err? { return Err(c.error); }
      classes := classes + [c.value];
    }
    var check := ValidateClasses(classes);
    if check.Err? {
      forall cs: seq<PathClassConfig> |
        |cs| == |raw| && (forall k :: 0 <= k < |raw| ==> ParsePathClass(raw[k]) == Ok(cs[k]))
        ensures !Distinct(cs)
      {
        forall k | 0 <= k < |raw| ensures cs[k] == classes[k] {
          assert ParsePathClass(raw[k]) == Ok(cs[k]);
        }
        assert cs == classes;
      }
      return Err(check.error);
    }
    return Ok(classes);
  }
}
