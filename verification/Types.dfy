/** Values shared by every component: path states, thresholds and path classes. */
module Types {

  datatype Option<+T> = None | Some(value: T)

  datatype Result<+T, +E> = Ok(value: T) | Err(error: E)

  datatype PathState = Idle | Scanning | Connecting | PathUp | PathDegraded | PathDown

  const TWO32: nat := 0x1_0000_0000
  const TWO64: nat := 0x1_0000_0000_0000_0000

  type int32 = x: int | -0x8000_0000 <= x < 0x8000_0000
  const INT32_MIN: int32 := -0x8000_0000

  datatype RssiThresholds = RssiThresholds(connectMin: int32, warn: int32, drop: int32)

  const DEFAULT_RSSI := RssiThresholds(-70, -75, -85)

  /** One path class. Text is a sequence of bytes held as characters. */
  datatype PathClassConfig = PathClassConfig(
    id: string,
    classid: bv32,
    cgroupPath: string,
    interfaces: seq<string>,
    mptcpEnabled: bool,
    routingTable: nat,
    mark: bv32,
    strictIsolation: bool,
    rssi: RssiThresholds)

  /** No two classes share an id, a classid, a mark or a routing table. */
  ghost predicate Distinct(classes: seq<PathClassConfig>) {
    forall i, j :: 0 <= i < j < |classes| ==>
      && classes[i].id != classes[j].id
      && classes[i].classid != classes[j].classid
      && classes[i].mark != classes[j].mark
      && classes[i].routingTable != classes[j].routingTable
  }

  ghost predicate ClassOk(c: PathClassConfig) {
    && c.id != "" && c.classid != 0 && c.cgroupPath != "" && c.mark != 0
    && |c.interfaces| > 0 && (forall k :: 0 <= k < |c.interfaces| ==> c.interfaces[k] != "")
    && 1 <= c.routingTable <= 65534
    && c.rssi.warn > c.rssi.drop
  }

  /** What a successful load of the configuration file promises. */
  ghost predicate Loaded(classes: seq<PathClassConfig>) {
    && classes != []
    && Distinct(classes)
    && forall i :: 0 <= i < |classes| ==> ClassOk(classes[i])
  }
}
