/** The privilege part of create_sandbox in sandbox.c, over the capability sets the kernel keeps for the
    process (capabilities(7), prctl(2), capset(2)). */
module Sandbox {

  const CAP_SETPCAP: nat := 8
  const CAP_NET_BIND_SERVICE: nat := 10

  datatype Errno = NoError | EINVAL | EPERM

  /** struct __user_cap_data_struct: one 32-bit word of each set, as the set of its bits. */
  datatype CapData = CapData(effective: set<nat>, permitted: set<nat>, inheritable: set<nat>)

  /** The credentials of the calling process, on a kernel whose highest capability number is `lastCap` and
      that may or may not know no_new_privs (Linux 3.5) and ambient sets (Linux 4.3). */
  class Credentials {
    const lastCap: nat
    const knowsNoNewPrivs: bool
    const knowsAmbient: bool
    var bounding: set<nat>
    var ambient: set<nat>
    var effective: set<nat>
    var permitted: set<nat>
    var inheritable: set<nat>
    var noNewPrivs: bool

    ghost predicate Valid()
      reads this
    {
      && (forall c | c in bounding :: c <= lastCap)
      && effective <= permitted
      && ambient <= permitted * inheritable
    }

    constructor (lastCap: nat, knowsNoNewPrivs: bool, knowsAmbient: bool, bounding: set<nat>, ambient: set<nat>,
                 effective: set<nat>, permitted: set<nat>, inheritable: set<nat>)
      requires forall c | c in bounding :: c <= lastCap
      requires effective <= permitted && ambient <= permitted * inheritable
      ensures Valid() && this.lastCap == lastCap && this.bounding == bounding && this.ambient == ambient
      ensures this.knowsNoNewPrivs == knowsNoNewPrivs && this.knowsAmbient == knowsAmbient
      ensures this.effective == effective && this.permitted == permitted && this.inheritable == inheritable
    {
      this.lastCap, this.knowsNoNewPrivs, this.knowsAmbient := lastCap, knowsNoNewPrivs, knowsAmbient;
      this.bounding, this.ambient := bounding, ambient;
      this.effective, this.permitted, this.inheritable := effective, permitted, inheritable;
      noNewPrivs := false;
    }

    /** prctl(PR_SET_NO_NEW_PRIVS, 1). */
    method SetNoNewPrivs() returns (errno: Errno)
      modifies this`noNewPrivs
      ensures errno == if knowsNoNewPrivs then NoError else EINVAL
      ensures noNewPrivs == (old(noNewPrivs) || errno.NoError?)
    {
      if !knowsNoNewPrivs {
        return EINVAL;
      }
      noNewPrivs := true;
      return NoError;
    }

    /** prctl(PR_CAP_AMBIENT, PR_CAP_AMBIENT_CLEAR_ALL). */
    method ClearAmbient() returns (errno: Errno)
      modifies this`ambient
      ensures errno == if knowsAmbient then NoError else EINVAL
      ensures ambient == if errno.NoError? then {} else old(ambient)
    {
      if !knowsAmbient {
        return EINVAL;
      }
      ambient := {};
      return NoError;
    }

    /** prctl(PR_CAPBSET_DROP, i). */
    method DropBounding(i: nat) returns (errno: Errno)
      modifies this`bounding
      ensures errno == if CAP_SETPCAP !in effective then EPERM else if i > lastCap then EINVAL else NoError
      ensures bounding == if errno.NoError? then old(bounding) - {i} else old(bounding)
    {
      if CAP_SETPCAP !in effective {
        return EPERM;
      }
      if i > lastCap {
        return EINVAL;
      }
      bounding := bounding - {i};
      return NoError;
    }

    /** Whether capset(2) lets the process take these sets. */
    predicate MaySet(d: CapData)
      reads this
    {
      && d.effective <= d.permitted <= permitted
      && d.inheritable <= inheritable + bounding
      && (CAP_SETPCAP in effective || d.inheritable <= inheritable + permitted)
    }

    method Capset(d: CapData) returns (errno: Errno)
      modifies this`effective, this`permitted, this`inheritable, this`ambient
      ensures errno == if old(MaySet(d)) then NoError else EPERM
      ensures errno.NoError? ==> effective == d.effective && permitted == d.permitted && inheritable == d.inheritable
                                 && ambient == old(ambient) * d.permitted * d.inheritable
      ensures !errno.NoError? ==> unchanged(this)
    {
      if !MaySet(d) {
        return EPERM;
      }
      effective, permitted, inheritable := d.effective, d.permitted, d.inheritable;
      ambient := ambient * d.permitted * d.inheritable;
      return NoError;
    }

    /** The sets that two CapData words denote together. */
    static function Joined(d: seq<CapData>): CapData
      requires |d| == 2
    {
      CapData(d[0].effective + (set c | c in d[1].effective :: c + 32),
              d[0].permitted + (set c | c in d[1].permitted :: c + 32),
              d[0].inheritable + (set c | c in d[1].inheritable :: c + 32))
    }

    /** Drops every capability but CAP_NET_BIND_SERVICE from the bounding set, up to the first number the
        kernel does not know. It ends for every highest capability number. */
    method DropBoundingSet() returns (errno: Errno)
      requires Valid()
      modifies this`bounding
      ensures errno.NoError? <==> CAP_SETPCAP in effective
      ensures errno.NoError? ==> bounding == old(bounding) * {CAP_NET_BIND_SERVICE}
      ensures !errno.NoError? ==> bounding == old(bounding)
    {
      var i := 0;
      while true
        invariant forall c :: c in bounding <==> c in old(bounding) && (c >= i || c == CAP_NET_BIND_SERVICE)
        invariant i > 0 ==> CAP_SETPCAP in effective
        invariant i <= lastCap + 1 || i == CAP_NET_BIND_SERVICE + 1
        decreases (if lastCap < CAP_NET_BIND_SERVICE then CAP_NET_BIND_SERVICE else lastCap) + 1 - i
      {
        if i == CAP_NET_BIND_SERVICE {
          i := i + 1;
          continue;
        }
        var e := DropBounding(i);
        if !e.NoError? {
          if e.EINVAL? {
            break;
          }
          assert bounding == old(bounding);
          return e;
        }
        i := i + 1;
      }
      assert bounding == old(bounding) * {CAP_NET_BIND_SERVICE};
      return NoError;
    }

    /** The steps of create_sandbox after the file system is set up. They succeed exactly for a process
        that may drop bounding capabilities and has CAP_NET_BIND_SERVICE to keep, and then leave it that
        one capability, whose number is 10, and no way to gain another. */
    method CreateSandbox() returns (ret: int)
      requires Valid()
      modifies this
      ensures Valid()
      ensures ret == 0 || ret == -1
      ensures ret == 0 <==> knowsNoNewPrivs && knowsAmbient
                            && old(CAP_SETPCAP in effective && CAP_NET_BIND_SERVICE in permitted
                                   && CAP_NET_BIND_SERVICE in inheritable + bounding)
      ensures ret == 0 ==> bounding == old(bounding) * {10} && ambient == {} && noNewPrivs
      ensures ret == 0 ==> effective == permitted == inheritable == {10}
      ensures permitted <= old(permitted) && bounding <= old(bounding)
    {
      var e := SetNoNewPrivs();
      if !e.NoError? {
        return -1;
      }
      e := ClearAmbient();
      if !e.NoError? {
        return -1;
      }
      e := DropBoundingSet();
      if !e.NoError? {
        return -1;
      }
      var data := new CapData[2](_ => CapData({}, {}, {}));
      data[0] := data[0].(effective := data[0].effective + {CAP_NET_BIND_SERVICE});
      data[0] := data[0].(permitted := data[0].permitted + {CAP_NET_BIND_SERVICE});
      data[0] := data[0].(inheritable := data[0].inheritable + {CAP_NET_BIND_SERVICE});
      var d := Joined(data[..]);
      assert d == CapData({CAP_NET_BIND_SERVICE}, {CAP_NET_BIND_SERVICE}, {CAP_NET_BIND_SERVICE});
      e := Capset(d);
      if !e.NoError? {
        return -1;
      }
      return 0;
    }
  }
}
