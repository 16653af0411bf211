/** The ISUCON4 application's start-up and login handler (4/webapp/main.go):
    the thresholds read from the environment, and the notice and redirect the
    `/login` handler chooses for each outcome of `attemptLogin`. Templates,
    sessions, routing and the database connection are not modelled. */
module Webapp {
  import opened Wrappers
  import opened Strconv
  import opened Util
  import opened Guard

  const UserLockVar := "ISU4_USER_LOCK_THRESHOLD"
  const IpBanVar := "ISU4_IP_BAN_THRESHOLD"

  datatype Thresholds = Thresholds(userLock: int, ipBan: int)

  /** The threshold half of `init`: each value parsed with `strconv.Atoi`
      from the environment or its default; a parse error panics, which aborts
      the process and is a `Failure` here. */
  function InitThresholds(env: map<string, string>): (r: Result<Thresholds, NumError>)
    ensures r.Success? ==> MinInt64 <= r.value.userLock <= MaxInt64 && MinInt64 <= r.value.ipBan <= MaxInt64
  {
    var userLock := Atoi(GetEnv(env, UserLockVar, "3"));
    if userLock.Failure? then Failure(userLock.error)
    else
      var ipBan := Atoi(GetEnv(env, IpBanVar, "10"));
      if ipBan.Failure? then Failure(ipBan.error)
      else Success(Thresholds(userLock.value, ipBan.value))
  }

  /** Unset or empty variables give the defaults: 3 failures lock a user, 10 ban an IP. */
  lemma DefaultThresholds(env: map<string, string>)
    requires UserLockVar !in env || env[UserLockVar] == ""
    requires IpBanVar !in env || env[IpBanVar] == ""
    ensures InitThresholds(env) == Success(Thresholds(3, 10))
  {
    AtoiItoa(3);
    AtoiItoa(10);
    assert Itoa(3) == "3";
    assert Itoa(10) == "10" by {
      assert Digits(10) == Digits(1) + [DigitChar(0)];
    }
  }

  /** Any pair of 64-bit integers written in decimal is read back unchanged. */
  lemma ThresholdsFromEnv(env: map<string, string>, userLock: int, ipBan: int)
    requires MinInt64 <= userLock <= MaxInt64 && MinInt64 <= ipBan <= MaxInt64
    requires UserLockVar in env && env[UserLockVar] == Itoa(userLock)
    requires IpBanVar in env && env[IpBanVar] == Itoa(ipBan)
    ensures InitThresholds(env) == Success(Thresholds(userLock, ipBan))
  {
    AtoiItoa(userLock);
    AtoiItoa(ipBan);
  }

  /** A set value with a character that is neither a digit nor a leading sign
      aborts start-up, for either variable. */
  lemma NonIntegerThresholdPanics(env: map<string, string>, name: string, i: nat)
    requires name == UserLockVar || name == IpBanVar
    requires name in env && i < |env[name]| && !IsDigit(env[name][i])
    requires i == 0 ==> env[name][0] != '-' && env[name][0] != '+'
    ensures InitThresholds(env).Failure?
  {
    AtoiRejectsNonDigit(env[name], i);
  }

  /** What the `/login` handler sends: a redirect, with the flash notice or
      the session's `user_id` it stores. */
  datatype LoginResponse = Redirect(location: string, notice: Option<string>, sessionUserId: Option<string>)

  const BannedNotice := "You're banned."
  const LockedNotice := "This account is locked."
  const WrongNotice := "Wrong username or password"

  /** The `/login` handler after `attemptLogin` returned `(user, err)`. */
  function LoginResponseOf(user: Option<User>, err: Option<LoginError>): (r: LoginResponse)
    ensures err == Some(BannedIP) ==> r == Redirect("/", Some(BannedNotice), None)
    ensures err == Some(LockedUser) ==> r == Redirect("/", Some(LockedNotice), None)
    ensures (err.Some? || user.None?) && err != Some(BannedIP) && err != Some(LockedUser) ==>
              r == Redirect("/", Some(WrongNotice), None)
    ensures err.None? && user.Some? ==> r == Redirect("/mypage", None, Some(Itoa(user.value.id)))
  {
    if err.Some? || user.None? then
      var notice :=
        match err
        case Some(BannedIP) => BannedNotice
        case Some(LockedUser) => LockedNotice
        case _ => WrongNotice;
      Redirect("/", Some(notice), None)
    else
      Redirect("/mypage", None, Some(Itoa(user.value.id)))
  }

  /** For every outcome of the decision chain, the handler answers "banned"
      exactly for a banned IP, and signs the user in exactly when every check
      passed; the `user_id` it stores parses back to the user's id. */
  lemma LoginResponseOfDecision(banned: bool, locked: bool, found: Option<User>, sha: string -> string,
                                password: string)
    requires found.Some? ==> MinInt64 <= found.value.id <= MaxInt64
    ensures var (user, err) := Decide(banned, locked, found, sha, password);
            var r := LoginResponseOf(user, err);
            && (r.notice == Some(BannedNotice) <==> banned)
            && (r.location == "/mypage" <==> err.None?)
            && (r.sessionUserId.Some? ==> found.Some? && Atoi(r.sessionUserId.value) == Success(found.value.id))
  {
    if found.Some? {
      AtoiItoa(found.value.id);
    }
  }
}
