/**
 * `check_auth` of app.py: the gate in front of the dashboard, over the
 * session entries `authenticated`, `user_info` and `expired_msg`. An absent
 * entry is `None`.
 */
module Session {
  import opened Wrappers
  import Bytes
  import Calendar
  import opened License

  const ExpiredNotice: string := "Your license has expired"

  /** The gate's verdict: signed in, an identity is present, and its expiry has not passed. */
  predicate GateOpen(authenticated: Option<bool>, userInfo: Option<LicenseInfo>, now: Calendar.Instant)
    requires userInfo.Some? ==> Calendar.Valid(userInfo.value.expiry)
  {
    authenticated == Some(true) && userInfo.Some? && now <= Calendar.ToInstant(userInfo.value.expiry)
  }

  /** An identity the validator hands out opens the gate at every moment up to its expiry. */
  lemma AcceptedLicenseOpensGate(key: Option<string>, config: Config, now: Calendar.Instant,
                                 md5: seq<Bytes.byte> -> HexDigest, later: Calendar.Instant)
    requires Validate(key, config, now, md5).Success?
    requires later <= Calendar.ToInstant(Validate(key, config, now, md5).value.expiry)
    ensures GateOpen(Some(true), Some(Validate(key, config, now, md5).value), now)
    ensures GateOpen(Some(true), Some(Validate(key, config, now, md5).value), later)
  {
  }

  /** The session entries `check_auth` reads and writes. */
  class SessionState {
    var authenticated: Option<bool>
    var userInfo: Option<LicenseInfo>
    var expiredMsg: Option<string>

    ghost predicate Valid()
      reads this
    {
      userInfo.Some? ==> Calendar.Valid(userInfo.value.expiry)
    }

    /** A fresh session holds none of the entries. */
    constructor ()
      ensures Valid()
      ensures authenticated == None && userInfo == None && expiredMsg == None
    {
      authenticated := None;
      userInfo := None;
      expiredMsg := None;
    }

    /**
     * `check_auth`, with the current time as a parameter. A passing session
     * is left as it was; a failing one ends with `authenticated` false, and
     * only the expiry failure also sets the expiry notice.
     */
    method CheckAuth(now: Calendar.Instant) returns (ok: bool)
      requires Valid()
      modifies this
      ensures Valid()
      ensures ok == GateOpen(old(authenticated), old(userInfo), now)
      ensures userInfo == old(userInfo)
      ensures authenticated == if ok then old(authenticated) else Some(false)
      ensures expiredMsg ==
        if old(authenticated) == Some(true) && old(userInfo).Some? && !ok then Some(ExpiredNotice)
        else old(expiredMsg)
    {
      if authenticated.None? {
        authenticated := Some(false);
        return false;
      }
      if !authenticated.value {
        return false;
      }
      if userInfo.None? {
        authenticated := Some(false);
        return false;
      }
      if now > Calendar.ToInstant(userInfo.value.expiry) {
        authenticated := Some(false);
        expiredMsg := Some(ExpiredNotice);
        return false;
      }
      return true;
    }
  }
}
