/** Helpers of the ISUCON4 application (4/webapp/util.go): configuration from
    the environment, one-shot flash messages in the session, and the password
    hash. The process environment is a map; SHA-256 is a function parameter. */
module Util {

  /** `os.Getenv`: an unset variable reads as the empty string. */
  function Getenv(env: map<string, string>, key: string): string
  {
    if key in env then env[key] else ""
  }

  /** `getEnv`: the environment's value unless it is unset or empty. */
  function GetEnv(env: map<string, string>, key: string, def: string): (r: string)
    ensures key in env && env[key] != "" ==> r == env[key]
    ensures key !in env || env[key] == "" ==> r == def
  {
    var v := Getenv(env, key);
    if |v| == 0 then def else v
  }

  /** `calcPassHash`: the hex SHA-256 (`sha`) of `password + ":" + salt`. */
  function CalcPassHash(sha: string -> string, password: string, salt: string): string
  {
    sha(password + ":" + salt)
  }

  /** The hash sees only the joined string, so two password/salt pairs that
      join to the same string have the same hash, whatever `sha` is. */
  lemma PassHashOfJoinedString(sha: string -> string, p1: string, s1: string, p2: string, s2: string)
    requires p1 + ":" + s1 == p2 + ":" + s2
    ensures CalcPassHash(sha, p1, s1) == CalcPassHash(sha, p2, s2)
  {
  }

  /** Such pairs exist: the separator may also occur inside the password or the salt. */
  lemma SeparatorIsAmbiguous(sha: string -> string)
    ensures CalcPassHash(sha, "a:b", "c") == CalcPassHash(sha, "a", "b:c")
  {
    assert "a:b" + ":" + "c" == "a" + ":" + "b:c";
  }

  /** The session's values map (only string values are modelled). */
  class Session {
    var values: map<string, string>

    constructor (values: map<string, string>)
      ensures this.values == values
    {
      this.values := values;
    }

    /** `getFlash`: hand out the value under `key` once, removing it. */
    method GetFlash(key: string) returns (v: string)
      modifies this
      ensures key in old(values) ==> v == old(values)[key] && values == old(values) - {key}
      ensures key !in old(values) ==> v == "" && values == old(values)
    {
      if key in values {
        v := values[key];
        values := values - {key};
      } else {
        v := "";
      }
    }
  }

  /** A flash message is read at most once: the second read of a key is empty. */
  method FlashReadTwice(values: map<string, string>, key: string) returns (first: string, second: string)
    ensures first == (if key in values then values[key] else "")
    ensures second == ""
  {
    var session := new Session(values);
    first := session.GetFlash(key);
    second := session.GetFlash(key);
  }
}
