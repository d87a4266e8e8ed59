/** Access sessions as the program keeps them, each method proved to take its step. */
module Security {
  import opened Wrappers
  import opened Records
  import opened Schedule
  import opened DomainAccess
  import opened AccessSessions

  class Security {
    const settings: Settings
    var sessions: map<string, Session>
    var users: map<string, UserProfile>
    var roles: map<string, Role>
    var profiles: map<string, AccessProfile>
    var devices: map<string, DeviceProfile>
    var dnsConfigs: map<string, DNSConfiguration>

    constructor (settings: Settings, t: Tables)
      ensures this.settings == settings && T() == t
    {
      this.settings := settings;
      sessions, users, roles := t.sessions, t.users, t.roles;
      profiles, devices, dnsConfigs := t.profiles, t.devices, t.dnsConfigs;
    }

    ghost function T(): Tables
      reads this
    {
      Tables(sessions, users, roles, profiles, devices, dnsConfigs)
    }

    method SetSession(ip: string, username: string, macAddress: string, reasonCode: nat, accessProfile: string)
      returns (session: Session)
      modifies this`sessions
      ensures session == Session(ip, username, macAddress, reasonCode, accessProfile)
      ensures T() == StoreSession(old(T()), session)
    {
      session := Session(ip, username, macAddress, reasonCode, accessProfile);
      if ip in sessions {
        sessions := sessions - {ip};
      }
      sessions := sessions[ip := session];
    }

    method SetAccessProfile(clientIP: string, accessProfile: string, now: Moment) returns (r: SetResult)
      modifies this`sessions, this`users
      ensures (T(), r) == SetAccessProfileStep(old(T()), settings, clientIP, accessProfile, now)
    {
      if clientIP !in sessions {
        return NoSession;
      }
      var ses := sessions[clientIP];
      var role := settings.defaultRole;
      var user: Option<UserProfile> := None;
      if ses.username != "" {
        if ses.username !in users {
          return NilDereference;
        }
        user := Some(users[ses.username]);
        role := user.value.role;
      }
      if role == "" {
        return NoRole;
      }
      if role !in roles {
        return NilDereference;
      }
      var active := GetActiveAccessProfiles(roles[role].schedule, now);
      if accessProfile !in active {
        return NotAvailable;
      }
      ses := ses.(accessProfile := accessProfile);
      sessions := sessions - {clientIP};
      if ses.ip !in sessions {
        sessions := sessions[ses.ip := ses];
      }
      if user.Some? {
        var u := user.value.(accessProfile := accessProfile);
        if u.userName in users {
          users := users[u.userName := u];
        }
      }
      return Done;
    }

    method ResolveUserByMacAddress(seen: Seen) returns (user: Option<UserProfile>, mac: string)
      modifies this`devices
      ensures Resolved(T(), user, mac) == ResolveUser(old(T()), settings, seen)
    {
      user, mac := None, seen.mac;
      if mac != "" {
        if mac !in devices {
          if seen.deviceName != "" {
            devices := devices[mac := DeviceProfile(mac, seen.deviceName, seen.deviceName, seen.deviceName, "",
                                                    settings.mode != MODE_BLOCK)];
          }
        } else if devices[mac].userName != "" {
          user := Get(users, devices[mac].userName);
        }
      }
    }

    /** The stored session with its user, or a session started for a user known by hardware address. */
    method FindOrStart(clientIP: string, seen: Seen)
      returns (ses: Option<Session>, user: Option<UserProfile>, mac: string, started: bool)
      modifies this`sessions, this`devices
      ensures Found(T(), ses, user, mac, started) == FindClient(old(T()), settings, clientIP, seen)
    {
      ses, user, mac, started := Get(sessions, clientIP), None, "", false;
      if ses.Some? {
        if ses.value.username != "" {
          user := Get(users, ses.value.username);
        }
      } else {
        user, mac := ResolveUserByMacAddress(seen);
        if user.Some? && user.value.enabled && user.value.role != "" {
          var s := SetSession(clientIP, user.value.userName, mac, 0, user.value.accessProfile);
          ses, started := Some(s), true;
        }
      }
    }

    method GetSessionInfo(clientIP: string, seen: Seen, now: Moment) returns (info: SessionInfo, ok: bool)
      modifies this`sessions, this`devices
      ensures Looked(T(), info, ok) == GetSessionInfoStep(old(T()), settings, clientIP, seen, now)
    {
      info := Bare(clientIP, ACCESS_BLOCKED_UNAUTHORISED);
      if clientIP in sessions && sessions[clientIP].reasonCode > 0 {
        return info.(rejectReason := sessions[clientIP].reasonCode), true;
      }
      var ses, user, mac, started := FindOrStart(clientIP, seen);
      ghost var f := Found(T(), ses, user, mac, started);
      var role: Option<Role> := None;
      if ses.Some? && !started {
        info := info.(rejectReason := ses.value.reasonCode);
        if ses.value.username == "" {
          role := Get(roles, settings.defaultRole);
        }
      }
      info := info.(reevaluate := started);
      if ses.None? {
        if settings.mode == MODE_ALLOW {
          role := Get(roles, settings.defaultRole);
          if role.None? {
            return info, false;
          }
          info := info.(rejectReason := ACCESS_ALLOWED);
        } else if settings.mode == MODE_CAPTIVE {
          info := info.(rejectReason := ACCESS_BLOCKED_NOT_AUTHENTICATED);
        } else if settings.mode == MODE_BLOCK {
          info := info.(rejectReason := ACCESS_BLOCKED_UNAUTHORISED);
        }
      }
      if user.Some? {
        info := info.(username := user.value.userName);
        role := Get(roles, user.value.role);
        if role.None? {
          return info, false;
        }
      }
      info := Fill(info, role, ses, user, now);
      if ses.None? {
        var ap := if info.accessProfile.Some? then info.accessProfile.value.name else "";
        var _ := SetSession(clientIP, info.username, mac, info.rejectReason, ap);
        info := info.(reevaluate := true);
      }
      return info, true;
    }

    /** The profile, role and DNS configuration of a resolved client. */
    method Fill(start: SessionInfo, role: Option<Role>, ses: Option<Session>, user: Option<UserProfile>, now: Moment)
      returns (info: SessionInfo)
      ensures info == Filled(T(), settings, start, role, ses, user, now)
    {
      info := start;
      if role.Some? {
        var name := SelectProfile(role.value.schedule, ses, user, now);
        info := info.(accessProfile := if name.Some? then Get(profiles, name.value) else None,
                      role := role.value.roleName, dynamicRouting := role.value.dynamicRouting);
      }
      var dns := SelectDNS(role, ses);
      info := info.(dns := Some(dns));
    }

    method SelectProfile(schedule: seq<RoleAccessSchedule>, ses: Option<Session>, user: Option<UserProfile>,
        now: Moment)
      returns (name: Option<string>)
      ensures name == ChosenProfile(ActiveProfiles(schedule, now), ses, user)
    {
      var ap := GetActiveAccessProfiles(schedule, now);
      if ses.Some? && ses.value.accessProfile != "" && ses.value.accessProfile in ap {
        name := Some(ses.value.accessProfile);
      } else if user.Some? && user.value.accessProfile != "" && user.value.accessProfile in ap {
        name := Some(user.value.accessProfile);
      } else if |ap| > 0 {
        name := Some(ap[0]);
      } else {
        name := None;
      }
    }

    method SelectDNS(role: Option<Role>, ses: Option<Session>) returns (dns: DNSConfiguration)
      ensures dns == WithDeviceName(T(), DNSOf(T(), settings, role), role, ses)
    {
      dns := DNSConfiguration(settings.fallbackDNS, 0);
      if role.Some? {
        if role.value.dnsOverride && role.value.dnsAddress != "" {
          dns := DNSConfiguration(role.value.dnsAddress, role.value.dnsMode);
        } else if role.value.dnsConfiguration != "" && role.value.dnsConfiguration in dnsConfigs {
          dns := dnsConfigs[role.value.dnsConfiguration];
        }
      }
      if dns.mode > 0 {
        assert role.Some?;
        if role.value.dnsPrependDeviceName
           && ses.Some? && ses.value.macAddress != "" && ses.value.macAddress in devices {
          var d := devices[ses.value.macAddress];
          if d.deviceName != "" {
            dns := dns.(address := Dashed(d.deviceName) + "-" + dns.address);
          } else if d.hostName != "" {
            dns := dns.(address := Dashed(d.hostName) + "-" + dns.address);
          }
        }
      }
    }
  }
}
