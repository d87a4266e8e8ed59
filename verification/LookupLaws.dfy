/** What a look-up answers and stores, case by case in terms of the stored tables, and how a change of
  * profile can end. */
module LookupLaws {
  import opened Wrappers
  import opened Schedule
  import opened DomainAccess
  import opened AccessSessions
  import opened AccessLaws

  // ----- Who the client is

  /** The stored user of the client: its session's, or its device's if it has no session. */
  function KnownUser(t: Tables, clientIP: string, seen: Seen): Option<string> {
    var name :=
      if clientIP in t.sessions then t.sessions[clientIP].username
      else if seen.mac != "" && seen.mac in t.devices then t.devices[seen.mac].userName
      else "";
    if name != "" && name in t.users then Some(name) else None
  }

  /** The role the client is judged by: its user's; else the default one, for a session without a user
    * and, in allow mode, for a client without a session. */
  function NeededRole(t: Tables, settings: Settings, clientIP: string, seen: Seen): Option<string> {
    var user := KnownUser(t, clientIP, seen);
    if user.Some? then Some(t.users[user.value].role)
    else if clientIP in t.sessions then
      if t.sessions[clientIP].username == "" then Some(settings.defaultRole) else None
    else if settings.mode == MODE_ALLOW then Some(settings.defaultRole)
    else None
  }

  /** A client without a session whose device does not start one. */
  predicate Stranger(t: Tables, clientIP: string, seen: Seen) {
    clientIP !in t.sessions && !KnownDevice(t, clientIP, seen)
  }

  /** 0 admits, 1 asks to authenticate, 2 turns away. */
  function ReasonOfMode(mode: nat): nat {
    if mode == MODE_ALLOW then 0 else if mode == MODE_CAPTIVE then 1 else 2
  }

  lemma UserFound(t: Tables, settings: Settings, clientIP: string, seen: Seen)
    requires WellNamed(t)
    ensures
      var f, user := FindClient(t, settings, clientIP, seen), KnownUser(t, clientIP, seen);
      && f.user == (if user.Some? then Some(t.users[user.value]) else None)
      && f.started == KnownDevice(t, clientIP, seen)
      && (f.ses.None? <==> Stranger(t, clientIP, seen))
  {
  }

  // ----- When it succeeds, and with which role

  /** A look-up succeeds exactly when the role of the client's user is stored and, for a stranger in
    * allow mode, the default role. */
  lemma SucceedsExactly(t: Tables, settings: Settings, clientIP: string, seen: Seen, now: Moment)
    requires WellNamed(t)
    ensures
      var user := KnownUser(t, clientIP, seen);
      GetSessionInfoStep(t, settings, clientIP, seen, now).ok <==>
      || StoredRejected(t, clientIP)
      || ((user.Some? ==> t.users[user.value].role in t.roles)
          && (Stranger(t, clientIP, seen) && settings.mode == MODE_ALLOW ==> settings.defaultRole in t.roles))
  {
    if !StoredRejected(t, clientIP) {
      UserFound(t, settings, clientIP, seen);
      FindKeeps(t, settings, clientIP, seen);
    }
  }

  /** A client stored as rejected is answered with its reason alone, and nothing changes. */
  lemma RejectedAnswer(t: Tables, settings: Settings, clientIP: string, seen: Seen, now: Moment)
    requires StoredRejected(t, clientIP)
    ensures GetSessionInfoStep(t, settings, clientIP, seen, now)
         == Looked(t, SessionInfo(clientIP, "", "", false, None, None, t.sessions[clientIP].reasonCode, false), true)
  {
  }

  lemma RoleFound(t: Tables, settings: Settings, clientIP: string, seen: Seen, now: Moment)
    requires WellNamed(t) && !StoredRejected(t, clientIP) && GetSessionInfoStep(t, settings, clientIP, seen, now).ok
    ensures
      var f, needed := FindClient(t, settings, clientIP, seen), NeededRole(t, settings, clientIP, seen);
      RoleOf(f, settings) == Success(if needed.Some? then Get(t.roles, needed.value) else None)
  {
    UserFound(t, settings, clientIP, seen);
    FindKeeps(t, settings, clientIP, seen);
  }

  /** Any other answer names the user and the role, if there are any, asks for a re-evaluation exactly for
    * a client without a session, and admits a stored one, turns a known device away for now, and answers a
    * stranger by the mode: 0 in allow mode, 1 in captive mode, 2 in every other. */
  lemma LookupAnswers(t: Tables, settings: Settings, clientIP: string, seen: Seen, now: Moment)
    requires WellNamed(t) && !StoredRejected(t, clientIP) && GetSessionInfoStep(t, settings, clientIP, seen, now).ok
    ensures
      var info := GetSessionInfoStep(t, settings, clientIP, seen, now).info;
      var user, needed := KnownUser(t, clientIP, seen), NeededRole(t, settings, clientIP, seen);
      && info.clientIP == clientIP && info.username == (if user.Some? then user.value else "")
      && (if needed.Some? && needed.value in t.roles then
            info.role == needed.value && info.dynamicRouting == t.roles[needed.value].dynamicRouting
          else info.role == "" && !info.dynamicRouting && info.accessProfile == None)
      && info.reevaluate == (clientIP !in t.sessions)
      && info.rejectReason == (if clientIP in t.sessions then 0
                               else if KnownDevice(t, clientIP, seen) then 2
                               else ReasonOfMode(settings.mode))
  {
    UserFound(t, settings, clientIP, seen);
    RoleFound(t, settings, clientIP, seen, now);
  }

  /** A look-up that fails still answers: without the default role "unauthorised" and nothing else; without
    * the user's role the user and the reason, and it still asks for a re-evaluation and leaves a session
    * exactly for a known device or a stored one. */
  lemma FailedLookup(t: Tables, settings: Settings, clientIP: string, seen: Seen, now: Moment)
    requires WellNamed(t) && !GetSessionInfoStep(t, settings, clientIP, seen, now).ok
    ensures
      var got, user := GetSessionInfoStep(t, settings, clientIP, seen, now), KnownUser(t, clientIP, seen);
      var known := KnownDevice(t, clientIP, seen);
      && got.info ==
         (if Stranger(t, clientIP, seen) && settings.mode == MODE_ALLOW && settings.defaultRole !in t.roles then
            SessionInfo(clientIP, "", "", false, None, None, 2, false)
          else
            SessionInfo(clientIP, if user.Some? then user.value else "", "", false, None, None,
                        if clientIP in t.sessions then 0 else if known then 2 else ReasonOfMode(settings.mode), known))
      && (clientIP in got.t.sessions <==> known || clientIP in t.sessions)
  {
    UserFound(t, settings, clientIP, seen);
    FindKeeps(t, settings, clientIP, seen);
  }

  // ----- What it stores

  /** The session that a successful look-up leaves for a client that had none: a known device's is started
    * for its user and admitted; a stranger's has the reason it is answered and the profile, if any. */
  lemma NewSession(t: Tables, settings: Settings, clientIP: string, seen: Seen, now: Moment)
    requires WellNamed(t) && clientIP !in t.sessions && GetSessionInfoStep(t, settings, clientIP, seen, now).ok
    ensures
      var got, user := GetSessionInfoStep(t, settings, clientIP, seen, now), KnownUser(t, clientIP, seen);
      clientIP in got.t.sessions && got.t.sessions[clientIP] ==
      if KnownDevice(t, clientIP, seen) then
        Session(clientIP, user.value, seen.mac, 0, t.users[user.value].accessProfile)
      else
        Session(clientIP, if user.Some? then user.value else "", seen.mac, ReasonOfMode(settings.mode),
                if got.info.accessProfile.Some? then got.info.accessProfile.value.name else "")
  {
    UserFound(t, settings, clientIP, seen);
    RoleFound(t, settings, clientIP, seen, now);
  }

  lemma FindRecords(t: Tables, settings: Settings, clientIP: string, seen: Seen)
    ensures
      var after, name := FindClient(t, settings, clientIP, seen).t, seen.deviceName;
      && after.dnsConfigs == t.dnsConfigs
      && after.devices ==
         if clientIP !in t.sessions && seen.mac != "" && seen.mac !in t.devices && name != "" then
           t.devices[seen.mac := DeviceProfile(seen.mac, name, name, name, "", settings.mode != MODE_BLOCK)]
         else t.devices
  {
  }

  lemma StoresOnlySessions(t: Tables, settings: Settings, clientIP: string, seen: Seen, now: Moment)
    requires !StoredRejected(t, clientIP)
    ensures
      var found := FindClient(t, settings, clientIP, seen).t;
      var after := GetSessionInfoStep(t, settings, clientIP, seen, now).t;
      after.devices == found.devices && after.dnsConfigs == found.dnsConfigs
  {
  }

  /** A look-up records the device of a client without a session exactly when it has a name and is not
    * recorded yet; it is enabled unless the mode is to block. No other device changes. */
  lemma DeviceRecorded(t: Tables, settings: Settings, clientIP: string, seen: Seen, now: Moment)
    ensures
      var after, name := GetSessionInfoStep(t, settings, clientIP, seen, now).t, seen.deviceName;
      && after.dnsConfigs == t.dnsConfigs
      && after.devices ==
         if clientIP !in t.sessions && seen.mac != "" && seen.mac !in t.devices && name != "" then
           t.devices[seen.mac := DeviceProfile(seen.mac, name, name, name, "", settings.mode != MODE_BLOCK)]
         else t.devices
  {
    FindRecords(t, settings, clientIP, seen);
    if !StoredRejected(t, clientIP) {
      StoresOnlySessions(t, settings, clientIP, seen, now);
    }
  }

  // ----- The DNS configuration

  /** The name a device goes by. */
  function DeviceName(d: DeviceProfile): string {
    if d.deviceName != "" then d.deviceName else d.hostName
  }

  /** The hardware address of the client's session, stored or started. */
  function SessionMac(t: Tables, clientIP: string, seen: Seen): string {
    if clientIP in t.sessions then t.sessions[clientIP].macAddress
    else if KnownDevice(t, clientIP, seen) then seen.mac
    else ""
  }

  /** The configuration is the role's own address if it overrides with one, else the stored one it names,
    * else the fallback over plain DNS. */
  predicate Configures(t: Tables, settings: Settings, role: Option<Role>, dns: DNSConfiguration) {
    var override := role.Some? && role.value.dnsOverride && role.value.dnsAddress != "";
    var named := role.Some? && role.value.dnsConfiguration != "" && role.value.dnsConfiguration in t.dnsConfigs;
    && (override ==> dns == DNSConfiguration(role.value.dnsAddress, role.value.dnsMode))
    && (!override && named ==> dns == t.dnsConfigs[role.value.dnsConfiguration])
    && (!override && !named ==> dns == DNSConfiguration(settings.fallbackDNS, 0))
  }

  /** The answered configuration is that, with the device's name and a dash in front of the address
    * exactly when it is not plain, the role asks for it, and the session's device has a name. */
  lemma LookupDNS(t: Tables, settings: Settings, clientIP: string, seen: Seen,
                  now: Moment) returns (base: DNSConfiguration)
    requires WellNamed(t) && !StoredRejected(t, clientIP) && GetSessionInfoStep(t, settings, clientIP, seen, now).ok
    ensures
      var needed := NeededRole(t, settings, clientIP, seen);
      var role := if needed.Some? then Get(t.roles, needed.value) else None;
      var mac := SessionMac(t, clientIP, seen);
      var prefixed := base.mode > 0 && role.Some? && role.value.dnsPrependDeviceName
                      && mac != "" && mac in t.devices && DeviceName(t.devices[mac]) != "";
      && Configures(t, settings, role, base)
      && GetSessionInfoStep(t, settings, clientIP, seen, now).info.dns ==
         Some(if prefixed then base.(address := Dashed(DeviceName(t.devices[mac])) + "-" + base.address) else base)
  {
    UserFound(t, settings, clientIP, seen);
    RoleFound(t, settings, clientIP, seen, now);
    var f := FindClient(t, settings, clientIP, seen);
    base := DNSOf(f.t, settings, RoleOf(f, settings).value);
  }

  /** Blanks of a device name become two dashes each, and nothing else changes. */
  lemma {:induction false} BlanksDashed(a: string, b: string)
    requires ' ' !in a
    ensures Dashed(a) == a && Dashed(a + " " + b) == a + "--" + Dashed(b)
  {
    if a == "" {
      assert a + " " + b == " " + b && (" " + b)[1..] == b;
    } else {
      BlanksDashed(a[1..], b);
      assert (a + " " + b)[1..] == a[1..] + " " + b;
    }
  }

  // ----- Setting a profile

  ghost predicate ActiveFor(role: Role, profile: string, now: Moment) {
    exists i :: ActiveAt(role.schedule, now, i, profile)
  }

  /** A change succeeds exactly for a client with a session whose role is known, named and stored, and a
    * profile that some schedule of that role makes active now; each other case has its own end, and changes
    * nothing. */
  lemma SetProfileEnds(t: Tables, settings: Settings, clientIP: string, profile: string, now: Moment)
    ensures
      var end := SetAccessProfileStep(t, settings, clientIP, profile, now);
      && (end.1 != Done ==> end.0 == t)
      && (end.1 == NoSession <==> clientIP !in t.sessions)
      && (clientIP in t.sessions ==>
            var name := t.sessions[clientIP].username;
            var missing := name != "" && name !in t.users;
            var role := if missing then "" else if name == "" then settings.defaultRole else t.users[name].role;
            && (end.1 == NoRole <==> !missing && role == "")
            && (end.1 == NilDereference <==> missing || (role != "" && role !in t.roles))
            && (end.1 == NotAvailable <==>
                  role != "" && role in t.roles && !ActiveFor(t.roles[role], profile, now))
            && (end.1 == Done <==> role != "" && role in t.roles && ActiveFor(t.roles[role], profile, now)))
  {
    if clientIP in t.sessions {
      var role := RoleOfSession(t, settings, t.sessions[clientIP]);
      if role.Some? && role.value in t.roles {
        ActiveIsListed(t.roles[role.value].schedule, now, profile);
      }
    }
  }
}
