/** The identification register (IDR) of an ARM debug access port, Nordic's
    CTRL-AP signature, and the locator that picks the CTRL-AP out of the
    access ports an attached target exposes (src/main.rs). */
module CtrlAp {
  import opened Wrappers

  /** Access-port classes of the ADIv5 IDR CLASS field, as probe-rs names them. */
  datatype APClass = Undefined | ComAp | MemAp

  /** Access-port types of the ADIv5 IDR TYPE field, as probe-rs names them. */
  datatype APType = JtagComAp | AmbaAhb | AmbaApb | AmbaAxi

  /** A decoded IDR. Equality is field by field, reserved field included,
      as for the derived equality of probe-rs's `IDR` struct. */
  datatype Idr = Idr(revision: nat, designer: nat, apClass: APClass, res0: nat, variant: nat, apType: APType)

  /** JEP-106 code of Nordic Semiconductor as it appears in the DESIGNER field. */
  const NordicDesigner: nat := 0x0144

  /** `CTRL_AP_IDR`: the signature of Nordic's control access port. */
  const CtrlApIdr: Idr := Idr(0, NordicDesigner, Undefined, 0, 0, JtagComAp)

  /** The closure handed to `get_ap_by_idr`: `idr == CTRL_AP_IDR`. */
  predicate IsCtrlAp(idr: Idr)
    ensures IsCtrlAp(idr) <==>
      && idr.designer == 0x0144
      && idr.apClass == Undefined
      && idr.apType == JtagComAp
      && idr.revision == 0
      && idr.variant == 0
      && idr.res0 == 0
  {
    idr == CtrlApIdr
  }

  /** A port whose IDR differs from the signature in any one field is refused. */
  lemma OneFieldOffIsRefused(idr: Idr)
    requires
      || (idr.designer != NordicDesigner && idr == CtrlApIdr.(designer := idr.designer))
      || (idr.apClass != Undefined && idr == CtrlApIdr.(apClass := idr.apClass))
      || (idr.apType != JtagComAp && idr == CtrlApIdr.(apType := idr.apType))
      || (idr.revision != 0 && idr == CtrlApIdr.(revision := idr.revision))
      || (idr.variant != 0 && idr == CtrlApIdr.(variant := idr.variant))
      || (idr.res0 != 0 && idr == CtrlApIdr.(res0 := idr.res0))
    ensures !IsCtrlAp(idr)
  {
  }

  /** The contract assumed of probe-rs's `get_ap_by_idr` with the CTRL-AP
      closure: the index of the first port, in the order the transport
      reports them, whose IDR matches; None when there is none. */
  function FindCtrlAp(ports: seq<Idr>): (r: Option<nat>)
    ensures r.Some? ==>
      && r.value < |ports|
      && IsCtrlAp(ports[r.value])
      && forall i :: 0 <= i < r.value ==> !IsCtrlAp(ports[i])
    ensures r.None? <==> forall i :: 0 <= i < |ports| ==> !IsCtrlAp(ports[i])
  {
    if |ports| == 0 then None
    else if IsCtrlAp(ports[0]) then Some(0)
    else match FindCtrlAp(ports[1..])
      case None => None
      case Some(k) => Some(k + 1)
  }
}
