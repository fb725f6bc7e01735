/** The connection setup of server/db.ts: the connection string built from
    the environment, the masked form of it that is logged, and the
    `isMongoConnected` flag that `connectDB` and the driver's
    `disconnected` event set. The driver, the in-memory fallback server
    and the environment are inputs. */
module DbConnect {
  import opened Common

  // ---------------------------------------------------------------------
  // encodeURIComponent
  // ---------------------------------------------------------------------

  /** The characters `encodeURIComponent` leaves alone. */
  predicate Unreserved(c: char)
  {
    ('A' <= c <= 'Z') || ('a' <= c <= 'z') || ('0' <= c <= '9') ||
    c == '-' || c == '_' || c == '.' || c == '!' || c == '~' || c == '*' ||
    c == '\'' || c == '(' || c == ')'
  }

  /** The characters an encoded component is made of. */
  predicate UriSafe(c: char)
  {
    Unreserved(c) || c == '%'
  }

  function HexDigitUpper(d: nat): (c: char)
    requires d < 16
    ensures Unreserved(c)
  {
    if d < 10 then ('0' as int + d) as char else ('A' as int + d - 10) as char
  }

  /** "%XX" for one byte. */
  function PercentByte(b: nat): (r: string)
    requires b < 256
    ensures |r| == 3 && r[0] == '%'
    ensures forall c :: c in r ==> UriSafe(c)
  {
    ['%', HexDigitUpper(b / 16), HexDigitUpper(b % 16)]
  }

  /** The UTF-8 bytes of a code point. */
  function Utf8(cp: nat): (bytes: seq<nat>)
    requires cp < 0x11_0000
    ensures 1 <= |bytes| <= 4
    ensures forall b :: b in bytes ==> b < 256
  {
    if cp < 0x80 then [cp]
    else if cp < 0x800 then [0xC0 + cp / 64, 0x80 + cp % 64]
    else if cp < 0x1_0000 then [0xE0 + cp / 4096, 0x80 + (cp / 64) % 64, 0x80 + cp % 64]
    else [0xF0 + cp / 262144, 0x80 + (cp / 4096) % 64, 0x80 + (cp / 64) % 64, 0x80 + cp % 64]
  }

  function PercentBytes(bytes: seq<nat>): (r: string)
    requires forall b :: b in bytes ==> b < 256
    ensures |r| == 3 * |bytes|
    ensures forall c :: c in r ==> UriSafe(c)
  {
    if bytes == [] then []
    else
      assert bytes[0] in bytes;
      assert forall b :: b in bytes[1..] ==> b in bytes;
      PercentByte(bytes[0]) + PercentBytes(bytes[1..])
  }

  function EncodeChar(c: char): (r: string)
    ensures forall x :: x in r ==> UriSafe(x)
    ensures Unreserved(c) ==> r == [c]
    ensures !Unreserved(c) ==> |r| >= 3 && r[0] == '%'
  {
    if Unreserved(c) then [c] else PercentBytes(Utf8(c as int))
  }

  /** `encodeURIComponent`: unreserved characters kept, every other
      character written as the percent-escaped bytes of its UTF-8 form. */
  function EncodeUriComponent(s: string): (r: string)
    ensures |r| >= |s|
    ensures forall c :: c in r ==> UriSafe(c)
  {
    if s == [] then [] else EncodeChar(s[0]) + EncodeUriComponent(s[1..])
  }

  /** A component made of unreserved characters only is left as it is. */
  lemma {:induction false} EncodeKeepsUnreserved(s: string)
    requires forall c :: c in s ==> Unreserved(c)
    ensures EncodeUriComponent(s) == s
  {
    if s != [] {
      assert s[0] in s;
      assert forall c :: c in s[1..] ==> c in s;
      EncodeKeepsUnreserved(s[1..]);
    }
  }

  /** An encoded password holds no '@', no ':' and no line break, so it
      cannot end the user-info part of a connection string early. */
  lemma EncodedHasNoDelimiters(s: string)
    ensures '@' !in EncodeUriComponent(s) && ':' !in EncodeUriComponent(s)
    ensures forall c :: c in EncodeUriComponent(s) ==> !IsLineTerminator(c)
  {
  }

  // ---------------------------------------------------------------------
  // Splitting on "//"
  // ---------------------------------------------------------------------

  predicate SlashesAt(s: string, i: int)
  {
    0 <= i && i + 1 < |s| && s[i] == '/' && s[i + 1] == '/'
  }

  /** The index of the first "//" in `s` at or after `i`. */
  function SlashesFrom(s: string, i: nat): (r: Option<nat>)
    ensures r.Some? ==> i <= r.value && SlashesAt(s, r.value) &&
                        forall j :: i <= j < r.value ==> !SlashesAt(s, j)
    ensures r.None? ==> forall j :: i <= j ==> !SlashesAt(s, j)
    decreases |s| - i
  {
    if i + 1 >= |s| then None
    else if SlashesAt(s, i) then Some(i)
    else SlashesFrom(s, i + 1)
  }

  /** The index of the first "//" in `s`. */
  function FirstSlashes(s: string): (r: Option<nat>)
    ensures r.Some? ==> SlashesAt(s, r.value) && forall j :: 0 <= j < r.value ==> !SlashesAt(s, j)
    ensures r.None? ==> forall j :: !SlashesAt(s, j)
  {
    SlashesFrom(s, 0)
  }

  /** `s.split('//')`. */
  function SplitSlashes(s: string): (parts: seq<string>)
    ensures |parts| >= 1
    ensures |parts| > 1 <==> FirstSlashes(s).Some?
    ensures FirstSlashes(s).Some? ==> parts[0] == s[..FirstSlashes(s).value]
    ensures FirstSlashes(s).None? ==> parts == [s]
    decreases |s|
  {
    var i := FirstSlashes(s);
    if i.None? then [s]
    else [s[..i.value]] + SplitSlashes(s[i.value + 2..])
  }

  // ---------------------------------------------------------------------
  // The connection string
  // ---------------------------------------------------------------------

  /** The environment variables `connectDB` reads. */
  datatype Env = Env(uri: Option<string>, user: Option<string>, password: Option<string>,
                     dbName: Option<string>)

  const DefaultUri: string := "mongodb://localhost:27017/animeverse"
  const DefaultDbName: string := "animeverse"

  /** Whether an environment variable is set to a non-empty value. */
  predicate Present(v: Option<string>)
  {
    v.Some? && v.value != ""
  }

  /** `process.env.X || fallback`. */
  function EnvOr(v: Option<string>, fallback: string): (r: string)
    ensures Present(v) ==> r == v.value
    ensures !Present(v) ==> r == fallback
  {
    if Present(v) then v.value else fallback
  }

  /** The URI with the credentials written into it, when user and
      password are set, the URI carries no '@' and it has a "//". */
  function WithCredentials(env: Env): (r: string)
  {
    var uri := EnvOr(env.uri, DefaultUri);
    if Present(env.user) && Present(env.password) && '@' !in uri then
      var parts := SplitSlashes(uri);
      if |parts| > 1 then
        parts[0] + "//" + env.user.value + ":" + EncodeUriComponent(env.password.value) + "@" + parts[1]
      else uri
    else uri
  }

  /** `connectionUri`: with the credentials inserted, then `/<db name>`
      appended when it has no '/' at all. */
  function ConnectionUri(env: Env): (r: string)
    ensures '/' in r
  {
    var withCredentials := WithCredentials(env);
    if '/' !in withCredentials then withCredentials + "/" + EnvOr(env.dbName, DefaultDbName)
    else withCredentials
  }

  /** Without both credentials, or with a URI that already has an '@',
      the URI is used as given, with the database name appended only when
      it has no '/'. */
  lemma NoCredentialsNoChange(env: Env)
    requires !(Present(env.user) && Present(env.password)) || '@' in EnvOr(env.uri, DefaultUri)
    ensures var uri := EnvOr(env.uri, DefaultUri);
            ConnectionUri(env) == if '/' in uri then uri else uri + "/" + EnvOr(env.dbName, DefaultDbName)
  {
  }

  /** In a text with no '/' before it, the first "//" is the one written
      after that text. */
  lemma FirstSlashesAfter(p: string, rest: string)
    requires '/' !in p
    ensures FirstSlashes(p + "//" + rest) == Some(|p|)
    ensures (p + "//" + rest)[..|p|] == p && (p + "//" + rest)[|p| + 2..] == rest
  {
    var s := p + "//" + rest;
    assert SlashesAt(s, |p|);
    forall j | 0 <= j < |p|
      ensures !SlashesAt(s, j)
    {
      assert s[j] == p[j];
    }
  }

  /** How `split('//')` cuts a URI: the scheme before the first "//", and
      everything after it up to the next "//". A single '/', as before a
      database name, does not cut. */
  lemma SplitShape(scheme: string, rest: string)
    requires '/' !in scheme
    ensures var parts := SplitSlashes(scheme + "//" + rest);
            |parts| > 1 && parts[0] == scheme &&
            parts[1] == if FirstSlashes(rest).Some? then rest[..FirstSlashes(rest).value] else rest
  {
    FirstSlashesAfter(scheme, rest);
  }

  /** With both credentials, the user and the encoded password go right
      after the first "//", and the URI goes on to the next "//", if any,
      where it is cut: "mongodb://localhost:27017/animeverse" keeps its
      database path, "mongodb://host//x" loses "//x". */
  lemma CredentialsInserted(env: Env, scheme: string, rest: string)
    requires Present(env.user) && Present(env.password)
    requires EnvOr(env.uri, DefaultUri) == scheme + "//" + rest
    requires '/' !in scheme && '@' !in scheme && '@' !in rest
    ensures var kept := if FirstSlashes(rest).Some? then rest[..FirstSlashes(rest).value] else rest;
            ConnectionUri(env) ==
              scheme + "//" + env.user.value + ":" + EncodeUriComponent(env.password.value) + "@" + kept
  {
    SplitShape(scheme, rest);
    var kept := if FirstSlashes(rest).Some? then rest[..FirstSlashes(rest).value] else rest;
    var built := scheme + "//" + env.user.value + ":" + EncodeUriComponent(env.password.value) + "@" + kept;
    assert built == WithCredentials(env);
    assert built[|scheme|] == '/';
  }

  /** A text whose only '/' is a single one has no "//". */
  lemma SingleSlash(p: string, q: string)
    requires '/' !in p && '/' !in q
    ensures FirstSlashes(p + "/" + q).None?
  {
    var s := p + "/" + q;
    forall j | 0 <= j && j + 1 < |s|
      ensures !SlashesAt(s, j)
    {
      if j < |p| {
        assert s[j] == p[j];
      } else {
        assert s[j + 1] == q[j - |p|];
      }
    }
  }

  /** A URI with a database path, like the default
      "mongodb://localhost:27017/animeverse", keeps that path when the
      credentials go in. */
  lemma CredentialsKeepDatabasePath(env: Env, scheme: string, host: string, db: string)
    requires Present(env.user) && Present(env.password)
    requires EnvOr(env.uri, DefaultUri) == scheme + "//" + host + "/" + db
    requires '/' !in scheme + host + db && '@' !in scheme + host + db
    ensures ConnectionUri(env) ==
      scheme + "//" + env.user.value + ":" + EncodeUriComponent(env.password.value) + "@" + host + "/" + db
  {
    assert '/' !in scheme && '/' !in host && '/' !in db by {
      assert forall c :: c in scheme || c in host || c in db ==> c in scheme + host + db;
    }
    assert '@' !in scheme && '@' !in host && '@' !in db by {
      assert forall c :: c in scheme || c in host || c in db ==> c in scheme + host + db;
    }
    SingleSlash(host, db);
    assert scheme + "//" + host + "/" + db == scheme + "//" + (host + "/" + db);
    CredentialsInserted(env, scheme, host + "/" + db);
  }

  // ---------------------------------------------------------------------
  // Masking
  // ---------------------------------------------------------------------

  /** The characters `.` in a regular expression does not match. */
  predicate IsLineTerminator(c: char)
  {
    c == '\n' || c == '\r' || c == '\U{2028}' || c == '\U{2029}'
  }

  /** The first index at or after `j` holding a line terminator, or |s|. */
  function LineEnd(s: string, j: nat): (e: nat)
    requires j <= |s|
    ensures j <= e <= |s|
    ensures forall k :: j <= k < e ==> !IsLineTerminator(s[k])
    ensures e < |s| ==> IsLineTerminator(s[e])
    decreases |s| - j
  {
    if j == |s| || IsLineTerminator(s[j]) then j else LineEnd(s, j + 1)
  }

  /** The last index before `e`, not before `j`, holding '@'. */
  function LastAt(s: string, j: nat, e: nat): (r: Option<nat>)
    requires j <= e <= |s|
    ensures r.Some? ==> j <= r.value < e && s[r.value] == '@' &&
                        forall k :: r.value < k < e ==> s[k] != '@'
    ensures r.None? ==> forall k :: j <= k < e ==> s[k] != '@'
    decreases e - j
  {
    if e == j then None
    else if s[e - 1] == '@' then Some(e - 1)
    else LastAt(s, j, e - 1)
  }

  /** Where the pattern `//.*@` matches when tried at `i`: the index of
      the '@' it ends on. */
  function MatchAt(s: string, i: nat): (r: Option<nat>)
    ensures r.Some? ==> SlashesAt(s, i) && i + 2 <= r.value < |s| && s[r.value] == '@'
  {
    if SlashesAt(s, i) then LastAt(s, i + 2, LineEnd(s, i + 2)) else None
  }

  /** What the matched text is replaced with. */
  const Masked: string := "//****:****@"

  /** The leftmost match at or after `i`, replaced. */
  function MaskFrom(s: string, i: nat): (r: string)
    decreases |s| - i
  {
    if i >= |s| then s
    else
      var m := MatchAt(s, i);
      if m.Some? then s[..i] + Masked + s[m.value + 1..] else MaskFrom(s, i + 1)
  }

  /** The logged URI: the first "//" that is followed by an '@' on the
      same line, through the last such '@', becomes `Masked`. */
  function Mask(s: string): (r: string)
  {
    MaskFrom(s, 0)
  }

  lemma {:induction false} MaskFromNoAt(s: string, i: nat)
    requires '@' !in s
    ensures MaskFrom(s, i) == s
    decreases |s| - i
  {
    if i < |s| {
      assert MatchAt(s, i).None?;
      MaskFromNoAt(s, i + 1);
    }
  }

  /** A string with no '@' is logged as it is. */
  lemma MaskWithoutAt(s: string)
    requires '@' !in s
    ensures Mask(s) == s
  {
    MaskFromNoAt(s, 0);
  }

  lemma {:induction false} MaskFromSkips(s: string, i: nat, j: nat)
    requires i <= j
    requires forall k :: i <= k < j ==> !SlashesAt(s, k)
    ensures MaskFrom(s, i) == MaskFrom(s, j)
    decreases j - i
  {
    if i < j {
      if i < |s| {
        assert MatchAt(s, i).None?;
      }
      MaskFromSkips(s, i + 1, j);
    }
  }

  /** The logged connection string hides the credentials: everything
      between the first "//" and the host becomes stars. */
  /** The shape of a masked string: the first "//" is at `i`, the rest of
      the string is one line, and its last '@' is at `at`. */
  lemma MaskOneLine(s: string, i: nat, at: nat)
    requires i + 2 <= at < |s| && SlashesAt(s, i) && s[at] == '@'
    requires forall k :: 0 <= k < i ==> !SlashesAt(s, k)
    requires forall k :: i + 2 <= k < |s| ==> !IsLineTerminator(s[k])
    requires forall k :: at < k < |s| ==> s[k] != '@'
    ensures Mask(s) == s[..i] + Masked + s[at + 1..]
  {
    MaskFromSkips(s, 0, i);
    assert LineEnd(s, i + 2) == |s|;
    assert LastAt(s, i + 2, |s|) == Some(at);
  }

  lemma MaskHidesCredentials(scheme: string, user: string, password: string, host: string)
    requires '/' !in scheme && '@' !in host
    requires forall c :: c in user + host ==> !IsLineTerminator(c)
    ensures Mask(scheme + "//" + user + ":" + EncodeUriComponent(password) + "@" + host)
         == scheme + Masked + host
  {
    var enc := EncodeUriComponent(password);
    EncodedHasNoDelimiters(password);
    var s := scheme + "//" + user + ":" + enc + "@" + host;
    var at := |scheme| + 2 + |user| + 1 + |enc|;
    assert s[at] == '@';
    assert s[at + 1..] == host;
    forall k | 0 <= k < |scheme|
      ensures !SlashesAt(s, k)
    {
      assert s[k] == scheme[k];
    }
    assert SlashesAt(s, |scheme|);
    forall k | |scheme| + 2 <= k < |s|
      ensures !IsLineTerminator(s[k])
    {
      if k < |scheme| + 2 + |user| {
        assert s[k] == user[k - |scheme| - 2];
        assert s[k] in user + host;
      } else if k < at {
        if k > |scheme| + 2 + |user| {
          assert s[k] in enc;
        }
      } else if k > at {
        assert s[k] == host[k - at - 1];
        assert s[k] in user + host;
      }
    }
    forall k | at < k < |s|
      ensures s[k] != '@'
    {
      assert s[k] == host[k - at - 1];
    }
    MaskOneLine(s, |scheme|, at);
    assert s[..|scheme|] == scheme;
  }

  // ---------------------------------------------------------------------
  // The connection flag
  // ---------------------------------------------------------------------

  /** What starting the in-memory fallback server does. */
  datatype MemoryServer = Started | NotStarted | StartThrows

  /** `connectDB` on the flag: the new flag and the value returned.
      `readyState` is the driver's state on entry, `externalConnects`
      whether connecting to the configured server succeeds, and
      `memoryServerConnected` what the fallback reports at the end. */
  function Connect(flag: bool, readyState: int, externalConnects: bool, memoryServer: MemoryServer,
                   memoryServerConnected: bool): (r: (bool, bool))
  {
    if readyState == 1 || externalConnects then (true, true)
    else if memoryServer == Started then (true, true)
    else if memoryServer == StartThrows then (false, memoryServerConnected)
    else (flag, memoryServerConnected)
  }

  /** The flag is set exactly when some connection was made, and then
      `connectDB` reports success; it is cleared only when starting the
      fallback throws; a fallback that merely fails to start leaves it as
      it was. */
  lemma ConnectFlag(flag: bool, readyState: int, externalConnects: bool, memoryServer: MemoryServer,
                    memoryServerConnected: bool)
    ensures var (newFlag, returned) := Connect(flag, readyState, externalConnects, memoryServer, memoryServerConnected);
            ((readyState == 1 || externalConnects || memoryServer == Started) ==> newFlag && returned) &&
            (!newFlag ==> memoryServer == StartThrows || (memoryServer == NotStarted && !flag)) &&
            (!returned ==> !memoryServerConnected && !(readyState == 1 || externalConnects || memoryServer == Started))
  {
  }

  /** The module-level flag and whether a `disconnected` listener has been
      registered on the driver. */
  class Connection {
    var isMongoConnected: bool
    var disconnectListener: bool

    constructor ()
      ensures !isMongoConnected && !disconnectListener
    {
      isMongoConnected, disconnectListener := false, false;
    }

    /** `connectDB`; it never throws. The listener is registered only
        after connecting to the configured server. */
    method ConnectDB(readyState: int, externalConnects: bool, memoryServer: MemoryServer,
                     memoryServerConnected: bool) returns (ok: bool)
      modifies this
      ensures (isMongoConnected, ok) ==
        Connect(old(isMongoConnected), readyState, externalConnects, memoryServer, memoryServerConnected)
      ensures disconnectListener == (old(disconnectListener) || (readyState != 1 && externalConnects))
    {
      if readyState == 1 {
        isMongoConnected := true;
        return true;
      }
      if externalConnects {
        isMongoConnected := true;
        disconnectListener := true;
        return true;
      }
      if memoryServer == StartThrows {
        isMongoConnected := false;
      } else if memoryServer == Started {
        isMongoConnected := true;
        return true;
      }
      ok := memoryServerConnected;
    }

    /** The driver's `disconnected` event: clears the flag when the
        listener is registered. */
    method Disconnected()
      modifies this
      ensures isMongoConnected == (old(isMongoConnected) && !disconnectListener)
      ensures disconnectListener == old(disconnectListener)
    {
      if disconnectListener {
        isMongoConnected := false;
      }
    }
  }
}
