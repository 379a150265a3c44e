/** Values stored in the database nodes (db.h). */
module Types {

  datatype Option<+T> = None | Some(value: T)

  /** A locator address: family and bytes of the socket address. */
  datatype Rloc = Rloc4(addr: seq<bv8>) | Rloc6(addr: seq<bv8>)

  datatype MapEntry = MapEntry(rloc: Rloc, priority: nat, weight: nat, mPriority: nat, mWeight: nat,
                               local: bool, probed: bool, reachable: bool)

  /** The `info` of a node: its list of locators. */
  type Locs = seq<MapEntry>

  /** The bits of `range`: `_MAPP` 1, `_MAPP_XTR` 2, `_EID` 4, `_GEID` 8, `_GREID` 16; the empty
      set is `_ROOT` 0, an untyped node. `_REID` 64 is an argument of the configuration's test and no node
      carries it. */
  datatype Role = Mapp | MappXtr | Eid | Geid | Greid

  /** `struct mapping_flags`; `site` is the `rsvd` pointer to the owning site. */
  datatype Flags = Flags(range: set<Role>, act: nat, auth: bool, version: nat, proxy: bool, ttl: nat,
                         referral: nat, incomplete: bool, site: Option<nat>)
}
