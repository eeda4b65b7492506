/** The objects the AMF links to one another for a UE's signalling connection. */
module NgapObjects {

  datatype AccessType = Unset | ThreeGpp | NonThreeGpp

  /** Stands in a connection's RAN-UE-NGAP-ID until the RAN has chosen one. */
  const UNSPECIFIED: int := 0xffff_ffff

  /** An identifier a message may carry. */
  datatype MessageId = Absent | Given(value: int)

  /** A RAN node and its connections, by RAN-UE-NGAP-ID. */
  class AmfRan {
    const anType: AccessType
    var ranUeList: map<int, RanUe>

    constructor (t: AccessType)
      ensures anType == t && ranUeList == map[]
    {
      anType, ranUeList := t, map[];
    }
  }

  /** A UE context and its connection for each access type. */
  class AmfUe {
    var ranUe: map<AccessType, RanUe>

    constructor ()
      ensures ranUe == map[]
    {
      ranUe := map[];
    }

    method DetachRanUe(t: AccessType)
      modifies this
      ensures ranUe == old(ranUe) - {t}
    {
      ranUe := ranUe - {t};
    }

    method AttachRanUe(u: RanUe)
      requires u.ran != null
      modifies this, u`amfUe
      ensures ranUe == old(ranUe)[u.ran.anType := u] && u.amfUe == this
    {
      ranUe := ranUe[u.ran.anType := u];
      u.amfUe := this;
    }
  }

  /** One UE-associated signalling connection. */
  class RanUe {
    var ranUeNgapId: int
    var amfUeNgapId: int
    var ran: AmfRan?
    var amfUe: AmfUe?
    var sourceUe: RanUe?   // the connection it takes over in a handover
    var targetUe: RanUe?   // the one that takes over from it

    constructor (ranId: int, amfId: int, r: AmfRan)
      ensures ranUeNgapId == ranId && amfUeNgapId == amfId && ran == r
      ensures amfUe == null && sourceUe == null && targetUe == null
    {
      ranUeNgapId, amfUeNgapId, ran, amfUe := ranId, amfId, r, null;
      sourceUe, targetUe := null, null;
    }

    method DetachAmfUe()
      modifies this`amfUe
      ensures amfUe == null
    {
      amfUe := null;
    }
  }
}
