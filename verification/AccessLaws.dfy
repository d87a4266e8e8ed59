/** What looking a client up guarantees, and how it follows a change of profile. */
module AccessLaws {
  import opened Wrappers
  import opened Records
  import opened Schedule
  import opened AccessSessions

  /** Records stand under their own names. */
  predicate WellNamed(t: Tables) {
    && (forall k :: k in t.sessions ==> t.sessions[k].ip == k)
    && (forall k :: k in t.users ==> t.users[k].userName == k)
    && (forall k :: k in t.roles ==> t.roles[k].roleName == k)
    && (forall k :: k in t.profiles ==> t.profiles[k].name == k)
  }

  predicate SessionChooses(ap: seq<string>, ses: Option<Session>, name: string) {
    ses.Some? && name == ses.value.accessProfile && name != "" && name in ap
  }

  predicate UserChooses(ap: seq<string>, user: Option<UserProfile>, name: string) {
    user.Some? && name == user.value.accessProfile && name != "" && name in ap
  }

  /** `name` is active, and no active choice of the session, then of the user, then of the role's
    * list is passed over for it. */
  ghost predicate Preferred(ap: seq<string>, ses: Option<Session>, user: Option<UserProfile>, name: string) {
    && name in ap
    && (forall x :: SessionChooses(ap, ses, x) ==> name == x)
    && (SessionChooses(ap, ses, name) || (forall x :: UserChooses(ap, user, x) ==> name == x))
    && (SessionChooses(ap, ses, name) || UserChooses(ap, user, name) || name == ap[0])
  }

  lemma ChosenIsPreferred(ap: seq<string>, ses: Option<Session>, user: Option<UserProfile>)
    ensures ChosenProfile(ap, ses, user).Some? ==> Preferred(ap, ses, user, ChosenProfile(ap, ses, user).value)
    ensures ChosenProfile(ap, ses, user).None? <==> ap == []
  {
  }

  /** Looking for a client changes its own session at most, and no user, role or profile. */
  lemma FindKeeps(t: Tables, settings: Settings, clientIP: string, seen: Seen)
    ensures
      var f := FindClient(t, settings, clientIP, seen);
      && f.t.users == t.users && f.t.roles == t.roles && f.t.profiles == t.profiles
      && (forall k :: k != clientIP ==> Get(f.t.sessions, k) == Get(t.sessions, k))
      && (clientIP in t.sessions ==> f.t == t)
      && (f.ses.Some? <==> clientIP in f.t.sessions)
  {
  }

  lemma RoleIsStored(f: Found, settings: Settings)
    ensures
      match RoleOf(f, settings)
      case Success(Some(r)) => exists k :: k in f.t.roles && f.t.roles[k] == r
      case _ => true
  {
  }

  /** A profile that is selected is a stored one, active now for the role that was resolved, and
    * preferred in the order session, user, role. */
  lemma SelectsActiveProfile(t: Tables, settings: Settings, clientIP: string, seen: Seen, now: Moment)
    requires WellNamed(t)
    ensures
      var got := GetSessionInfoStep(t, settings, clientIP, seen, now);
      got.info.accessProfile.Some? ==>
        var f := FindClient(t, settings, clientIP, seen);
        var p := got.info.accessProfile.value;
        && got.ok && got.info.role in t.roles && p.name in t.profiles && t.profiles[p.name] == p
        && Preferred(ActiveProfiles(t.roles[got.info.role].schedule, now), f.ses, f.user, p.name)
  {
    var f := FindClient(t, settings, clientIP, seen);
    FindKeeps(t, settings, clientIP, seen);
    RoleIsStored(f, settings);
    match RoleOf(f, settings)
    case Success(Some(r)) =>
      ChosenIsPreferred(ActiveProfiles(r.schedule, now), f.ses, f.user);
    case _ =>
  }

  /** Every error-free look-up leaves a session stored for the client, and others as they were. */
  lemma LeavesSession(t: Tables, settings: Settings, clientIP: string, seen: Seen, now: Moment)
    ensures
      var got := GetSessionInfoStep(t, settings, clientIP, seen, now);
      && (got.ok ==> clientIP in got.t.sessions)
      && got.t.users == t.users && got.t.roles == t.roles && got.t.profiles == t.profiles
      && (forall k :: k != clientIP ==> Get(got.t.sessions, k) == Get(t.sessions, k))
      && (clientIP in t.sessions ==> got.t == t)
  {
    FindKeeps(t, settings, clientIP, seen);
  }

  /** A session started by a look-up belongs to the user it names. */
  lemma StartedForUser(t: Tables, settings: Settings, clientIP: string, seen: Seen)
    requires WellNamed(t)
    ensures
      var f := FindClient(t, settings, clientIP, seen);
      f.user.Some? ==> f.user.value.userName != "" || clientIP in t.sessions
    ensures
      var f := FindClient(t, settings, clientIP, seen);
      f.user.Some? ==> f.user == Get(t.users, f.user.value.userName)
  {
  }

  /** A client found again: its session stands as the first look-up left it. */
  lemma FoundAgain(t: Tables, settings: Settings, clientIP: string, seen: Seen, again: Seen, now: Moment)
    requires WellNamed(t) && GetSessionInfoStep(t, settings, clientIP, seen, now).ok
    requires clientIP !in t.sessions || t.sessions[clientIP].reasonCode == 0
    ensures
      var f := FindClient(t, settings, clientIP, seen);
      var got := GetSessionInfoStep(t, settings, clientIP, seen, now);
      var g := FindClient(got.t, settings, clientIP, again);
      && g.t == got.t && g.user == f.user && !g.started
      && clientIP in got.t.sessions && g.ses == Some(got.t.sessions[clientIP])
      && g.ses.value.reasonCode == (if f.started then ACCESS_ALLOWED else got.info.rejectReason)
      && (f.ses.Some? ==> g.ses == f.ses)
      && (f.ses.None? ==>
            g.ses.value.username == UserNameOf(f)
            && g.ses.value.accessProfile
               == if got.info.accessProfile.Some? then got.info.accessProfile.value.name else "")
  {
    FindKeeps(t, settings, clientIP, seen);
    StartedForUser(t, settings, clientIP, seen);
  }

  /** A client without a session, known by its hardware address as a user who may have one. */
  predicate KnownDevice(t: Tables, clientIP: string, seen: Seen) {
    && clientIP !in t.sessions && seen.mac != "" && seen.mac in t.devices
    && var name := t.devices[seen.mac].userName;
    && name != "" && name in t.users && t.users[name].enabled && t.users[name].role != ""
  }

  /** An error-free look-up answers with the reason of the session it leaves stored, except for a
    * client known by its device alone: that one is answered "unauthorised" while it is admitted. */
  lemma FirstAnswerExactly(t: Tables, settings: Settings, clientIP: string, seen: Seen, now: Moment)
    requires WellNamed(t) && GetSessionInfoStep(t, settings, clientIP, seen, now).ok
    ensures
      var got := GetSessionInfoStep(t, settings, clientIP, seen, now);
      && clientIP in got.t.sessions
      && (got.info.rejectReason == got.t.sessions[clientIP].reasonCode <==> !KnownDevice(t, clientIP, seen))
      && (KnownDevice(t, clientIP, seen) ==>
            got.info.rejectReason == ACCESS_BLOCKED_UNAUTHORISED
            && got.t.sessions[clientIP].reasonCode == ACCESS_ALLOWED && got.info.reevaluate)
  {
    FindKeeps(t, settings, clientIP, seen);
  }

  /** Looking a client up again succeeds, changes nothing, and answers with the stored reason; so it
    * answers as before exactly when the client was not one known by its device alone. */
  lemma SecondLookup(t: Tables, settings: Settings, clientIP: string, seen: Seen, again: Seen, now: Moment)
    requires WellNamed(t) && GetSessionInfoStep(t, settings, clientIP, seen, now).ok
    ensures
      var got := GetSessionInfoStep(t, settings, clientIP, seen, now);
      var second := GetSessionInfoStep(got.t, settings, clientIP, again, now);
      && second.ok && second.t == got.t && clientIP in got.t.sessions
      && second.info.rejectReason == got.t.sessions[clientIP].reasonCode
      && (second.info.rejectReason == got.info.rejectReason <==> !KnownDevice(t, clientIP, seen))
      && !second.info.reevaluate
  {
    FirstAnswerExactly(t, settings, clientIP, seen, now);
    if clientIP !in t.sessions || t.sessions[clientIP].reasonCode == 0 {
      FoundAgain(t, settings, clientIP, seen, again, now);
    } else {
      FindKeeps(t, settings, clientIP, seen);
    }
  }

  /** The profile the next look-up chooses. */
  function NextChoice(t: Tables, settings: Settings, clientIP: string, seen: Seen, now: Moment): Option<string> {
    var f := FindClient(t, settings, clientIP, seen);
    match RoleOf(f, settings)
    case Success(Some(role)) => ChosenProfile(ActiveProfiles(role.schedule, now), f.ses, f.user)
    case _ => None
  }

  /** A look-up that ends before the profile: its session is stored as rejected. */
  predicate StoredRejected(t: Tables, clientIP: string) {
    clientIP in t.sessions && t.sessions[clientIP].reasonCode > 0
  }

  ghost predicate NoneActive(role: Role, now: Moment) {
    forall i :: 0 <= i < |role.schedule| ==> !IsScheduleActive(role.schedule[i], now)
  }

  lemma NoneActiveIsEmpty(role: Role, now: Moment)
    ensures NoneActive(role, now) <==> ActiveProfiles(role.schedule, now) == []
  {
    var ap := ActiveProfiles(role.schedule, now);
    if ap != [] {
      ActiveIsListed(role.schedule, now, ap[0]);
    }
    forall i: nat | i < |role.schedule| && IsScheduleActive(role.schedule[i], now)
      ensures ap != []
    {
      ActiveIsListed(role.schedule, now, role.schedule[i].accessProfile);
      assert ActiveAt(role.schedule, now, i, role.schedule[i].accessProfile);
    }
  }

  /** An error-free look-up, an admitting one too, has no profile exactly when the client has no role,
    * no schedule of its role is active, or the profile they come to is not stored. */
  lemma ProfileMissingExactly(t: Tables, settings: Settings, clientIP: string, seen: Seen, now: Moment)
    requires GetSessionInfoStep(t, settings, clientIP, seen, now).ok && !StoredRejected(t, clientIP)
    ensures
      var role := RoleOf(FindClient(t, settings, clientIP, seen), settings);
      var choice := NextChoice(t, settings, clientIP, seen, now);
      && role.Success? && (choice.None? <==> role.value.None? || NoneActive(role.value.value, now))
      && (GetSessionInfoStep(t, settings, clientIP, seen, now).info.accessProfile.None? <==>
            choice.None? || choice.value !in t.profiles)
  {
    FindKeeps(t, settings, clientIP, seen);
    match RoleOf(FindClient(t, settings, clientIP, seen), settings)
    case Success(Some(role)) => NoneActiveIsEmpty(role, now);
    case _ =>
  }

  /** In particular, a new client with no device name is admitted without a profile whenever the
    * default role has no active schedule. */
  lemma AdmittedWithoutProfile(t: Tables, settings: Settings, clientIP: string, seen: Seen, now: Moment)
    requires settings.mode == MODE_ALLOW && settings.defaultRole in t.roles
    requires clientIP !in t.sessions && seen.mac == ""
    ensures
      var got := GetSessionInfoStep(t, settings, clientIP, seen, now);
      && got.ok && got.info.rejectReason == ACCESS_ALLOWED
      && (NoneActive(t.roles[settings.defaultRole], now) ==> got.info.accessProfile.None?)
  {
    if NoneActive(t.roles[settings.defaultRole], now) {
      NoneActiveIsEmpty(t.roles[settings.defaultRole], now);
    }
  }

  /** Setting a profile changes the choice of the session and of its user, and nothing else. */
  lemma SetProfileSets(t: Tables, settings: Settings, clientIP: string, profile: string, now: Moment)
    requires WellNamed(t) && clientIP in t.sessions
    requires SetAccessProfileStep(t, settings, clientIP, profile, now).1 == Done
    ensures
      var s := t.sessions[clientIP];
      var t' := SetAccessProfileStep(t, settings, clientIP, profile, now).0;
      && WellNamed(t') && t'.sessions == t.sessions[clientIP := s.(accessProfile := profile)]
      && t' == t.(sessions := t'.sessions, users := t'.users)
      && t'.users == (if s.username == "" then t.users
                      else t.users[s.username := t.users[s.username].(accessProfile := profile)])
      && RoleOfSession(t, settings, s).Some? && RoleOfSession(t, settings, s).value in t.roles
      && profile in ActiveProfiles(t.roles[RoleOfSession(t, settings, s).value].schedule, now)
  {
  }

  /** After a profile was set on an admitted session, the next look-up at the same instant succeeds
    * and chooses that profile, unless the empty name was set and is not the first active one. */
  lemma SetProfileIsChosen(t: Tables, settings: Settings, clientIP: string, profile: string, seen: Seen, now: Moment)
    requires WellNamed(t) && clientIP in t.sessions && t.sessions[clientIP].reasonCode == 0
    requires SetAccessProfileStep(t, settings, clientIP, profile, now).1 == Done
    ensures
      var t' := SetAccessProfileStep(t, settings, clientIP, profile, now).0;
      var got := GetSessionInfoStep(t', settings, clientIP, seen, now);
      && got.ok && got.t == t'
      && got.info.accessProfile == ProfileOf(t', NextChoice(t', settings, clientIP, seen, now))
    ensures
      var s := t.sessions[clientIP];
      var t' := SetAccessProfileStep(t, settings, clientIP, profile, now).0;
      RoleOfSession(t, settings, s).Some? && RoleOfSession(t, settings, s).value in t.roles
      && var ap := ActiveProfiles(t.roles[RoleOfSession(t, settings, s).value].schedule, now);
      ap != [] && (NextChoice(t', settings, clientIP, seen, now) == Some(profile) <==> profile != "" || ap[0] == "")
  {
    SetProfileSets(t, settings, clientIP, profile, now);
  }
}
