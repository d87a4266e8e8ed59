/** Client sessions: resolving a client to a role, a profile and a DNS configuration. */
module AccessSessions {
  import opened Wrappers
  import opened Records
  import opened Schedule
  import opened DomainAccess

  datatype Session = Session(ip: string, username: string, macAddress: string, reasonCode: nat, accessProfile: string)

  datatype UserProfile = UserProfile(userName: string, enabled: bool, role: string, accessProfile: string)

  datatype DeviceProfile =
    DeviceProfile(macAddress: string, deviceName: string, hostName: string, dnsName: string, userName: string,
                  enabled: bool)

  datatype Role = Role(
    roleName: string, dynamicRouting: bool, dnsOverride: bool, dnsConfiguration: string,
    dnsMode: nat, dnsAddress: string, dnsPrependDeviceName: bool, schedule: seq<RoleAccessSchedule>)

  const MODE_CAPTIVE: nat := 0
  const MODE_ALLOW: nat := 1
  const MODE_BLOCK: nat := 2

  datatype Settings = Settings(mode: nat, defaultRole: string, fallbackDNS: string)

  /** The stored tables that access decisions read and write. */
  datatype Tables = Tables(
    sessions: map<string, Session>, users: map<string, UserProfile>, roles: map<string, Role>,
    profiles: map<string, AccessProfile>, devices: map<string, DeviceProfile>,
    dnsConfigs: map<string, DNSConfiguration>)

  function Get<V>(m: map<string, V>, k: string): Option<V> {
    if k in m then Some(m[k]) else None
  }

  /** What the network layer knows of a client: its hardware address and name, if any. */
  datatype Seen = Seen(mac: string, deviceName: string)

  // ----- Steps

  function StoreSession(t: Tables, s: Session): Tables {
    t.(sessions := t.sessions[s.ip := s])
  }

  /** Creating a session that exists already fails, and the failure is ignored. */
  function CreateSession(t: Tables, s: Session): Tables {
    if s.ip in t.sessions then t else StoreSession(t, s)
  }

  datatype Resolved = Resolved(t: Tables, user: Option<UserProfile>, mac: string)

  /** The user behind a hardware address; a device seen for the first time with a name is recorded. */
  function ResolveUser(t: Tables, settings: Settings, seen: Seen): Resolved {
    if seen.mac == "" then Resolved(t, None, "")
    else if seen.mac !in t.devices then
      if seen.deviceName == "" then Resolved(t, None, seen.mac)
      else
        var name := seen.deviceName;
        var d := DeviceProfile(seen.mac, name, name, name, "", settings.mode != MODE_BLOCK);
        Resolved(t.(devices := t.devices[seen.mac := d]), None, seen.mac)
    else if t.devices[seen.mac].userName != "" then Resolved(t, Get(t.users, t.devices[seen.mac].userName), seen.mac)
    else Resolved(t, None, seen.mac)
  }

  datatype SetResult = Done | NoSession | NoRole | NotAvailable | NilDereference

  /** The role a session stands for when its profile is set. */
  function RoleOfSession(t: Tables, settings: Settings, s: Session): Option<string> {
    if s.username == "" then Some(settings.defaultRole)
    else if s.username in t.users then Some(t.users[s.username].role)
    else None
  }

  /** Missing users and roles are dereferenced all the same; the program stops there. */
  function SetAccessProfileStep(t: Tables, settings: Settings, clientIP: string, profile: string,
      now: Moment): (Tables, SetResult) {
    if clientIP !in t.sessions then (t, NoSession)
    else
      var s := t.sessions[clientIP];
      var role := RoleOfSession(t, settings, s);
      if role.None? then (t, NilDereference)
      else if role.value == "" then (t, NoRole)
      else if role.value !in t.roles then (t, NilDereference)
      else if profile !in ActiveProfiles(t.roles[role.value].schedule, now) then (t, NotAvailable)
      else
        var t1 := t.(sessions := t.sessions - {clientIP});
        var t2 := CreateSession(t1, s.(accessProfile := profile));
        if s.username == "" then (t2, Done)
        else
          var u := t.users[s.username].(accessProfile := profile);
          (if u.userName in t2.users then t2.(users := t2.users[u.userName := u]) else t2, Done)
  }

  /** Which profile a role's active ones, the session's choice and the user's choice come to. */
  function ChosenProfile(ap: seq<string>, ses: Option<Session>, user: Option<UserProfile>): Option<string> {
    if ses.Some? && ses.value.accessProfile != "" && ses.value.accessProfile in ap then Some(ses.value.accessProfile)
    else if user.Some? && user.value.accessProfile != "" && user.value.accessProfile in ap
    then Some(user.value.accessProfile)
    else if ap != [] then Some(ap[0])
    else None
  }

  function ProfileOf(t: Tables, name: Option<string>): Option<AccessProfile> {
    if name.None? then None else Get(t.profiles, name.value)
  }

  function DNSOf(t: Tables, settings: Settings, role: Option<Role>): DNSConfiguration {
    var fallback := DNSConfiguration(settings.fallbackDNS, 0);
    if role.None? then fallback
    else if role.value.dnsOverride && role.value.dnsAddress != "" then
      DNSConfiguration(role.value.dnsAddress, role.value.dnsMode)
    else if role.value.dnsConfiguration != "" && role.value.dnsConfiguration in t.dnsConfigs then
      t.dnsConfigs[role.value.dnsConfiguration]
    else fallback
  }

  /** Blanks become two dashes. */
  function Dashed(s: string): string {
    if s == "" then "" else (if s[0] == ' ' then "--" else [s[0]]) + Dashed(s[1..])
  }

  /** Encrypted and TCP look-ups can carry the device name in front of the address. */
  function WithDeviceName(t: Tables, dns: DNSConfiguration, role: Option<Role>,
      ses: Option<Session>): DNSConfiguration {
    if dns.mode > 0 && role.Some? && role.value.dnsPrependDeviceName
       && ses.Some? && ses.value.macAddress != "" && ses.value.macAddress in t.devices then
      var d := t.devices[ses.value.macAddress];
      if d.deviceName != "" then dns.(address := Dashed(d.deviceName) + "-" + dns.address)
      else if d.hostName != "" then dns.(address := Dashed(d.hostName) + "-" + dns.address)
      else dns
    else dns
  }

  /** A client as it was found: its stored session if any, its user, and the default role if that applies. */
  datatype Found = Found(t: Tables, ses: Option<Session>, user: Option<UserProfile>, mac: string, started: bool)

  function FindClient(t: Tables, settings: Settings, clientIP: string, seen: Seen): Found {
    if clientIP in t.sessions then
      var ses := t.sessions[clientIP];
      Found(t, Some(ses), if ses.username != "" then Get(t.users, ses.username) else None, "", false)
    else
      var r := ResolveUser(t, settings, seen);
      if r.user.Some? && r.user.value.enabled && r.user.value.role != "" then
        var ses := Session(clientIP, r.user.value.userName, r.mac, 0, r.user.value.accessProfile);
        Found(StoreSession(r.t, ses), Some(ses), r.user, r.mac, true)
      else Found(r.t, None, r.user, r.mac, false)
  }

  function ModeReason(settings: Settings): nat {
    if settings.mode == MODE_ALLOW then ACCESS_ALLOWED
    else if settings.mode == MODE_CAPTIVE then ACCESS_BLOCKED_NOT_AUTHENTICATED
    else ACCESS_BLOCKED_UNAUTHORISED
  }

  datatype RoleError = NoDefaultRole | NoUserRole

  /** The role the client is judged by, or which role it needs is missing. */
  function RoleOf(f: Found, settings: Settings): Result<Option<Role>, RoleError> {
    if f.ses.None? && settings.mode == MODE_ALLOW && settings.defaultRole !in f.t.roles then Failure(NoDefaultRole)
    else if f.user.Some? then
      if f.user.value.role in f.t.roles then Success(Some(f.t.roles[f.user.value.role])) else Failure(NoUserRole)
    else if f.ses.Some? then Success(if f.ses.value.username == "" then Get(f.t.roles, settings.defaultRole) else None)
    else Success(if settings.mode == MODE_ALLOW then Get(f.t.roles, settings.defaultRole) else None)
  }

  /** A session started by this very call still answers as unauthorised. */
  function ReasonOf(f: Found, settings: Settings): nat {
    if f.ses.None? then ModeReason(settings)
    else if f.started then ACCESS_BLOCKED_UNAUTHORISED
    else f.ses.value.reasonCode
  }

  function UserNameOf(f: Found): string {
    if f.user.Some? then f.user.value.userName else ""
  }

  datatype Looked = Looked(t: Tables, info: SessionInfo, ok: bool)

  function Bare(clientIP: string, reason: nat): SessionInfo {
    SessionInfo(clientIP, "", "", false, None, None, reason, false)
  }

  function GetSessionInfoStep(t: Tables, settings: Settings, clientIP: string, seen: Seen, now: Moment): Looked {
    if clientIP in t.sessions && t.sessions[clientIP].reasonCode > 0 then
      Looked(t, Bare(clientIP, t.sessions[clientIP].reasonCode), true)
    else
      var f := FindClient(t, settings, clientIP, seen);
      match RoleOf(f, settings)
      case Failure(NoDefaultRole) => Looked(f.t, Bare(clientIP, ACCESS_BLOCKED_UNAUTHORISED), false)
      case Failure(NoUserRole) =>
        Looked(f.t, Bare(clientIP, ReasonOf(f, settings)).(username := UserNameOf(f), reevaluate := f.started), false)
      case Success(role) =>
        var info := Informed(f, role, settings, clientIP, now);
        if f.ses.Some? then Looked(f.t, info, true)
        else
          var ap := if info.accessProfile.Some? then info.accessProfile.value.name else "";
          Looked(StoreSession(f.t, Session(clientIP, info.username, f.mac, info.rejectReason, ap)), info, true)
  }

  /** Everything an error-free look-up answers, apart from the session it may still have to start. */
  function Informed(f: Found, role: Option<Role>, settings: Settings, clientIP: string, now: Moment): SessionInfo {
    var bare := Bare(clientIP, ReasonOf(f, settings));
    var start := bare.(username := UserNameOf(f), reevaluate := f.started || f.ses.None?);
    Filled(f.t, settings, start, role, f.ses, f.user, now)
  }

  function Filled(t: Tables, settings: Settings, start: SessionInfo, role: Option<Role>,
                  ses: Option<Session>, user: Option<UserProfile>, now: Moment): SessionInfo {
    var info := start.(dns := Some(WithDeviceName(t, DNSOf(t, settings, role), role, ses)));
    match role
    case None => info
    case Some(r) =>
      info.(accessProfile := ProfileOf(t, ChosenProfile(ActiveProfiles(r.schedule, now), ses, user)),
            role := r.roleName, dynamicRouting := r.dynamicRouting)
  }
}
