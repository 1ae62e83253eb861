/**
  The records of uvgrtp/v3c_util.hh: V3C unit headers, units, NAL unit descriptors, and the
  map of a file, one list of units for each unit type.
 */
module V3cTypes {
  import opened Bytes

  const V3C_HDR_LEN: nat := 4
  const ATLAS_NAL_SIZE_PRECISION: nat := 2
  const VIDEO_NAL_SIZE_PRECISION: nat := 4
  const V3C_SIZE_PRECISION: nat := 3

  /** A `uint8_t` field of a header. */
  type u8 = bv8

  /** The tagged union of unit headers; `Other` is a unit type the programs do not know. */
  datatype UnitHeader =
    | Vps
    | Ad(psId: u8, atlasId: u8)
    | Ovd(psId: u8, atlasId: u8)
    | Gvd(psId: u8, atlasId: u8, mapIndex: u8, auxiliaryVideo: bool)
    | Avd(psId: u8, atlasId: u8, attributeIndex: u8, partitionIndex: u8, mapIndex: u8, auxiliaryVideo: bool)
    | Pvd(psId: u8, atlasId: u8)
    | Cad(psId: u8)
    | Other(unitType: u8)
  {
    function Type(): u8 {
      match this
      case Vps => 0
      case Ad(_, _) => 1
      case Ovd(_, _) => 2
      case Gvd(_, _, _, _) => 3
      case Avd(_, _, _, _, _, _) => 4
      case Pvd(_, _) => 5
      case Cad(_) => 6
      case Other(t) => t
    }

    /** Atlas units carry one more byte, the precision of their NAL unit sizes. */
    predicate IsAtlas() {
      Ad? || Cad?
    }
  }

  /** A NAL unit inside a V3C unit; `buf` holds its bytes on the receiving side only. */
  datatype NalInfo = NalInfo(location: nat, size: nat, buf: seq<byte>)

  /** A V3C unit; `ptr` and `ready` are used on the receiving side only. */
  datatype UnitInfo = UnitInfo(header: UnitHeader, nalInfos: seq<NalInfo>, ptr: nat, ready: bool)

  /** The values of the seven unit lists of a file map. */
  datatype UnitLists = UnitLists(
    vps: seq<UnitInfo>, ad: seq<UnitInfo>, ovd: seq<UnitInfo>, gvd: seq<UnitInfo>,
    avd: seq<UnitInfo>, pvd: seq<UnitInfo>, cad: seq<UnitInfo>)
  {
    function Store(u: UnitInfo): UnitLists {
      match u.header
      case Vps => this.(vps := vps + [u])
      case Ad(_, _) => this.(ad := ad + [u])
      case Ovd(_, _) => this.(ovd := ovd + [u])
      case Gvd(_, _, _, _) => this.(gvd := gvd + [u])
      case Avd(_, _, _, _, _, _) => this.(avd := avd + [u])
      case Pvd(_, _) => this.(pvd := pvd + [u])
      case Cad(_) => this.(cad := cad + [u])
      case Other(_) => this
    }

    /** Number of units in all seven lists. */
    function Count(): nat {
      |vps| + |ad| + |ovd| + |gvd| + |avd| + |pvd| + |cad|
    }

    function StoreAll(us: seq<UnitInfo>): UnitLists
      decreases us
    {
      if us == [] then this else Store(us[0]).StoreAll(us[1..])
    }
  }

  const NO_UNITS := UnitLists([], [], [], [], [], [], [])

  /** The file map: one list of units for each unit type. */
  class FileMap {
    var vpsUnits: seq<UnitInfo>
    var adUnits: seq<UnitInfo>
    var ovdUnits: seq<UnitInfo>
    var gvdUnits: seq<UnitInfo>
    var avdUnits: seq<UnitInfo>
    var pvdUnits: seq<UnitInfo>
    var cadUnits: seq<UnitInfo>

    function Lists(): UnitLists
      reads this
    {
      UnitLists(vpsUnits, adUnits, ovdUnits, gvdUnits, avdUnits, pvdUnits, cadUnits)
    }

    constructor ()
      ensures Lists() == NO_UNITS
    {
      vpsUnits, adUnits, ovdUnits, gvdUnits, avdUnits, pvdUnits, cadUnits := [], [], [], [], [], [], [];
    }

    /** Adds a unit to the list of its type; units of unknown types are dropped. */
    method Store(u: UnitInfo)
      modifies this
      ensures Lists() == old(Lists()).Store(u)
    {
      match u.header
      case Vps => vpsUnits := vpsUnits + [u];
      case Ad(_, _) => adUnits := adUnits + [u];
      case Ovd(_, _) => ovdUnits := ovdUnits + [u];
      case Gvd(_, _, _, _) => gvdUnits := gvdUnits + [u];
      case Avd(_, _, _, _, _, _) => avdUnits := avdUnits + [u];
      case Pvd(_, _) => pvdUnits := pvdUnits + [u];
      case Cad(_) => cadUnits := cadUnits + [u];
      case Other(_) =>
    }
  }
}
