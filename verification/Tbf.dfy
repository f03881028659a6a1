/**
 * The token bucket filter object. Its methods change the fields in place and are proved to be
 * exactly the handlers of TbfModel; `sent_` and `dropped_` stand for the downstream target and
 * the drop target, which only ever see packets appended.
 */
module Tbf {
  import opened Options
  import opened TbfModel

  class TBF {
    var tokens_: real
    var rate_: real
    var bucket_: int
    var qlen_: int
    var lastupdatetime_: real
    var q_: seq<Packet>
    var init_: bool
    /** When tbf_timer_ expires, if it is pending. */
    var timer_: Option<real>
    var sent_: seq<Packet>
    var dropped_: seq<Packet>
    /** The clock at the last event. */
    ghost var clock_: real

    ghost function Config(): Params
      reads this
    {
      Params(rate_, bucket_, qlen_)
    }

    ghost function State(): State
      reads this
    {
      TbfModel.State(tokens_, lastupdatetime_, q_, timer_, init_, clock_)
    }

    /** The targets have seen exactly what an outcome says, on top of what they had seen. */
    ghost predicate Settled(sent: seq<Packet>, dropped: seq<Packet>, o: Outcome)
      reads this
    {
      && sent_ == (if o.Sent? then sent + [o.p] else sent)
      && dropped_ == (if o.Dropped? then dropped + [o.p] else dropped)
    }

    constructor (rate: real, bucket: int, qlen: int)
      ensures State() == INITIAL && Config() == Params(rate, bucket, qlen)
      ensures sent_ == [] && dropped_ == []
    {
      tokens_, init_, q_, timer_ := 0.0, true, [], None;
      rate_, bucket_, qlen_ := rate, bucket, qlen;
      lastupdatetime_, clock_ := 0.0, 0.0;
      sent_, dropped_ := [], [];
    }

    method GetUpdatedTokens(now: real)
      modifies this`tokens_, this`lastupdatetime_
      ensures State() == Refilled(old(Config()), old(State()), now)
    {
      tokens_ := tokens_ + (now - lastupdatetime_) * rate_;
      if tokens_ > bucket_ as real {
        tokens_ := bucket_ as real;
      }
      lastupdatetime_ := now;
    }

    /** The part of recv for an empty queue: spend tokens, wait for them, or drop. */
    method Admit(p: Packet, now: real)
      requires rate_ > 0.0 && q_ == [] && !init_ && clock_ == now
      modifies this`tokens_, this`lastupdatetime_, this`q_, this`timer_, this`sent_, this`dropped_
      ensures var (s', o) := TbfModel.Recv(Config(), old(State()), p, now); State() == s' && Settled(old(sent_), old(dropped_), o)
      ensures |sent_| + |q_| + |dropped_| == old(|sent_| + |dropped_|) + 1
    {
      GetUpdatedTokens(now);
      var pktsize := Bits(p);
      if tokens_ >= pktsize {
        sent_ := sent_ + [p];
        tokens_ := tokens_ - pktsize;
      } else {
        if qlen_ != 0 {
          q_ := q_ + [p];
          timer_ := Some(now + (pktsize - tokens_) / rate_);
        } else {
          dropped_ := dropped_ + [p];
        }
      }
    }

    /** A packet arrives: it is forwarded, queued or dropped, and exactly one of these. */
    method Recv(p: Packet, now: real)
      requires rate_ > 0.0
      modifies this
      ensures Config() == old(Config())
      ensures var (s', o) := TbfModel.Recv(Config(), old(State()), p, now); State() == s' && Settled(old(sent_), old(dropped_), o)
      ensures |sent_| + |q_| + |dropped_| == old(|sent_| + |q_| + |dropped_|) + 1
    {
      clock_ := now;
      if init_ {
        tokens_ := bucket_ as real;
        lastupdatetime_ := now;
        init_ := false;
      }
      if |q_| != 0 {
        if |q_| < qlen_ {
          q_ := q_ + [p];
          return;
        }
        dropped_ := dropped_ + [p];
        return;
      }
      Admit(p, now);
    }

    /** The timer expires. On states that satisfy the invariant the queue is not empty, so the
        filter's own consistency check never aborts, and the unchecked send is paid for: no
        tokens are left over when the head fits the bucket. */
    method Timeout()
      requires rate_ > 0.0 && bucket_ >= 0 && Ok(Config(), State()) && timer_.Some?
      modifies this
      ensures Config() == old(Config())
      ensures State() == TbfModel.Timeout(Config(), old(State()), old(timer_.value)).0 && Ok(Config(), State())
      ensures sent_ == old(sent_) + [old(q_)[0]] && dropped_ == old(dropped_)
      ensures Bits(old(q_)[0]) <= bucket_ as real ==> tokens_ == 0.0
    {
      assert |q_| != 0;
      TimeoutOk(Config(), State());
      var now := timer_.value;
      timer_ := None;
      clock_ := now;
      var p := q_[0];
      q_ := q_[1..];
      GetUpdatedTokens(now);
      var pktsize := Bits(p);
      sent_ := sent_ + [p];
      tokens_ := tokens_ - pktsize;
      if |q_| != 0 {
        pktsize := Bits(q_[0]);
        timer_ := Some(now + (pktsize - tokens_) / rate_);
      }
    }
  }
}
