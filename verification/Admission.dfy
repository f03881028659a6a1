/**
 * The admission objects of one link, updated in place, and the two ends of the handshake. Each
 * method is proved to do what AdmissionModel does to the link's value.
 */
module Admission {
  import opened AdmissionModel

  /** Parameter-based admission: the sum of reserved rates against a share of the bandwidth. */
  class ParamAdc {
    const utilization_: real
    const bandwidth_: real
    var resv_rate_: real

    constructor (utilization: real, bandwidth: real)
      ensures resv_rate_ == 0.0 && utilization_ == utilization && bandwidth_ == bandwidth
    {
      utilization_, bandwidth_, resv_rate_ := utilization, bandwidth, 0.0;
    }

    method AdmitFlow(r: real) returns (decide: bool)
      modifies this
      ensures decide <==> old(resv_rate_) + r <= utilization_ * bandwidth_
      ensures resv_rate_ == if decide then old(resv_rate_) + r else old(resv_rate_)
    {
      if resv_rate_ + r <= utilization_ * bandwidth_ {
        resv_rate_ := resv_rate_ + r;
        return true;
      }
      return false;
    }

    method RejAction(p: real)
      modifies this
      ensures resv_rate_ == old(resv_rate_) - p
    {
      resv_rate_ := resv_rate_ - p;
    }

    method TeardownAction(p: real)
      modifies this
      ensures resv_rate_ == old(resv_rate_) - p
    {
      resv_rate_ := resv_rate_ - p;
    }
  }

  class SALink {
    const adc_: ParamAdc
    const pending_: array<int>
    var numfl_: int

    ghost function State(): Link
      reads this, adc_, pending_
    {
      Link(adc_.utilization_ * adc_.bandwidth_, adc_.resv_rate_, pending_[..], numfl_)
    }

    constructor (adc: ParamAdc)
      ensures adc_ == adc && fresh(pending_)
      ensures State() == Link(adc.utilization_ * adc.bandwidth_, adc.resv_rate_, seq(NFLOWS, i => -1), -1)
    {
      adc_, numfl_ := adc, -1;
      pending_ := new int[NFLOWS](i => -1);
    }

    /** The first slot with the flow's id; -1 if there is none. */
    method Lookup(flowid: int) returns (j: int)
      ensures j == if Find(pending_[..], flowid) < pending_.Length then Find(pending_[..], flowid) else -1
    {
      for i := 0 to pending_.Length
        invariant forall k | 0 <= k < i :: pending_[k] != flowid
      {
        if pending_[i] == flowid {
          FindAt(pending_[..], flowid, i);
          return i;
        }
      }
      FindAt(pending_[..], flowid, pending_.Length);
      return -1;
    }

    /** The first free slot; running out of slots ends the program, so there must be one. */
    method GetNxt() returns (j: nat)
      requires Room(State())
      ensures j == Find(pending_[..], -1) && j < pending_.Length
    {
      j := 0;
      while pending_[j] != -1
        invariant j <= Find(pending_[..], -1)
        decreases pending_.Length - j
      {
        j := j + 1;
      }
      FindAt(pending_[..], -1, j);
    }

    /** One signalling packet passes the link. */
    method Recv(p: Packet) returns (out: Packet)
      requires p.kind == Request && Admits(State(), p.rate) ==> Room(State())
      modifies this, adc_, pending_
      ensures (State(), out) == AdmissionModel.Recv(old(State()), p)
    {
      out := p;
      match p.kind {
        case Request =>
          var decide := adc_.AdmitFlow(p.rate);
          out := p.(decision := p.decision && decide);
          if decide {
            var j := GetNxt();
            pending_[j] := p.flow;
            numfl_ := numfl_ + 1;
          }
        case Accept =>
        case Reject =>
        case Confirm =>
          var j := Lookup(p.flow);
          if j != -1 {
            if !p.decision {
              adc_.RejAction(p.rate);
              numfl_ := numfl_ - 1;
            }
            pending_[j] := -1;
          }
        case Teardown =>
          adc_.TeardownAction(p.rate);
          numfl_ := numfl_ - 1;
      }
    }
  }

  lemma FindAt(p: seq<int>, id: int, j: nat)
    requires j <= |p| && (j < |p| ==> p[j] == id) && forall i | 0 <= i < j :: p[i] != id
    ensures Find(p, id) == j
  {
  }

  /** The source end of the handshake. */
  class SAAgent {
    const flowid: int
    const rate_: real
    var running_: bool

    constructor (id: int, rate: real)
      ensures flowid == id && rate_ == rate && !running_
    {
      flowid, rate_, running_ := id, rate, false;
    }

    method SendReq() returns (p: Packet)
      ensures p == Packet(Request, flowid, rate_, true)
    {
      p := Packet(Request, flowid, rate_, true);
    }

    /** Turns an answer round as a CONFIRM and runs exactly if it was positive. */
    method Recv(p: Packet) returns (out: Packet)
      modifies this
      ensures running_ == p.decision
      ensures out == if p.kind == Accept || p.kind == Reject then p.(kind := Confirm) else p
    {
      out := p;
      if p.kind == Accept || p.kind == Reject {
        out := p.(kind := Confirm);
      }
      if p.decision {
        running_ := true;
      } else {
        running_ := false;
      }
    }

    /** Tears the reservation down, whether or not there is one. */
    method Stop() returns (p: Packet)
      modifies this
      ensures p == Packet(Teardown, flowid, rate_, true) && !running_
    {
      p := Packet(Teardown, flowid, rate_, true);
      if running_ {
        running_ := false;
      }
    }
  }
}
