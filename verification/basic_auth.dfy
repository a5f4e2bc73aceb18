/** `BasicAuth`: the Basic-scheme credential pipeline (section 2 of RFC 7617).
    Each stage turns bad input into `None` instead of raising. The user store
    is a parameter: `search(email)` is what `User.search({'email': email})`
    returns (or `Fail` when it raises), and `isValidPassword(user, pwd)` is
    `user.is_valid_password(pwd)`. */
module BasicAuth {
  import opened Values
  import Auth
  import Utf8
  import Base64

  /** The scheme prefix, case-sensitive, with its trailing space. */
  const BASIC_PREFIX: string := "Basic "

  /** The outcome of the store lookup: it raised, or it returned users in order. */
  datatype SearchResult<U> = Fail | Found(users: seq<U>)

  /** `s.split(sep, 1)` when `sep` occurs in `s`: the text before the first
      `sep` and everything after it. */
  function SplitFirst(s: string, sep: char): (r: Option<(string, string)>)
    ensures r.None? <==> sep !in s
    ensures r.Some? ==> sep !in r.value.0 && r.value.0 + [sep] + r.value.1 == s
  {
    if s == [] then None
    else if s[0] == sep then Some(([], s[1..]))
    else
      match SplitFirst(s[1..], sep)
      case None => None
      case Some((before, after)) => Some(([s[0]] + before, after))
  }

  /** The split is determined by its parts: a first part free of `sep` is the
      one `SplitFirst` finds. */
  lemma {:induction false} SplitFirstOf(before: string, sep: char, after: string)
    requires sep !in before
    ensures SplitFirst(before + [sep] + after, sep) == Some((before, after))
  {
    var s := before + [sep] + after;
    if before == [] {
      assert s[0] == sep && s[1..] == after;
    } else {
      assert s[0] == before[0] != sep;
      assert s[1..] == before[1..] + [sep] + after;
      SplitFirstOf(before[1..], sep, after);
      assert [before[0]] + before[1..] == before;
    }
  }

  /** `extract_base64_authorization_header`: the token after "Basic ". */
  function ExtractBase64AuthorizationHeader(header: PyValue): (r: Option<string>)
    ensures r.Some? <==> header.PStr? && StartsWith(header.s, BASIC_PREFIX)
    ensures r.Some? ==> header.s == BASIC_PREFIX + r.value
  {
    if header.PNone? then None
    else if !header.PStr? then None
    else if !StartsWith(header.s, BASIC_PREFIX) then None
    else
      var s := header.s;
      assert s == "Basic" + [' '] + s[6..];
      SplitFirstOf("Basic", ' ', s[6..]);
      match SplitFirst(s, ' ')
      case Some((_, token)) => Some(token)
  }

  /** The remainder after "Basic " is returned whole, whatever it holds. */
  lemma ExtractAfterPrefix(t: string)
    ensures ExtractBase64AuthorizationHeader(PStr(BASIC_PREFIX + t)) == Some(t)
  {
    assert (BASIC_PREFIX + t)[..6] == BASIC_PREFIX;
  }

  /** Other schemes, and the prefix in another case, are refused. */
  lemma ExtractRefusesOtherSchemes()
    ensures ExtractBase64AuthorizationHeader(PStr("Bearer abc")) == None
    ensures ExtractBase64AuthorizationHeader(PStr("basic abc")) == None
    ensures ExtractBase64AuthorizationHeader(PStr("Basic abc")) == Some("abc")
  {
    assert "Bearer abc"[..6] != BASIC_PREFIX by { assert "Bearer abc"[1] != BASIC_PREFIX[1]; }
    assert "basic abc"[..6] != BASIC_PREFIX by { assert "basic abc"[0] != BASIC_PREFIX[0]; }
    ExtractAfterPrefix("abc");
    assert BASIC_PREFIX + "abc" == "Basic abc";
  }

  /** `decode_base64_authorization_header`: `str.encode('utf-8')`, then
      `base64.b64decode`, then `bytes.decode('utf-8')`; `None` on any failure. */
  function DecodeBase64AuthorizationHeader(token: PyValue): (r: Option<string>)
    ensures !token.PStr? ==> r.None?
    ensures r.Some? ==> Base64.Decode(Utf8.Encode(token.s)) == Some(Utf8.Encode(r.value))
    ensures token.PStr? ==>
              (r.None? <==> Base64.Decode(Utf8.Encode(token.s)).None?
                            || Utf8.Decode(Base64.Decode(Utf8.Encode(token.s)).value).None?)
  {
    if token.PNone? then None
    else if !token.PStr? then None
    else
      match Base64.Decode(Utf8.Encode(token.s))
      case None => None
      case Some(bytes) =>
        match Utf8.Decode(bytes)
        case None => None
        case Some(text) =>
          Utf8.EncodeDecode(bytes);
          Some(text)
  }

  /** Base64 text as a Python `str` turns back into the very bytes it encodes. */
  lemma EncodedTextBytes(bytes: seq<Byte>)
    ensures Utf8.Encode(Base64.EncodeText(bytes)) == Base64.Encode(bytes)
  {
    var t := Base64.EncodeText(bytes);
    Utf8.EncodeAscii(t);
  }

  /** Decoding the Base64 text of the UTF-8 bytes of any string gives it back. */
  lemma DecodeRoundTrip(s: string)
    ensures DecodeBase64AuthorizationHeader(PStr(Base64.EncodeText(Utf8.Encode(s)))) == Some(s)
  {
    var bytes := Utf8.Encode(s);
    EncodedTextBytes(bytes);
    Base64.DecodeEncode(bytes);
    Utf8.DecodeEncode(s);
  }

  /** `extract_user_credentials`: the pair split at the first ':'; the
      password may itself contain ':'. */
  function ExtractUserCredentials(decoded: PyValue): (r: (Option<string>, Option<string>))
    ensures r.0.Some? <==> decoded.PStr? && ':' in decoded.s
    ensures r.1.Some? <==> r.0.Some?
    ensures r.0.Some? ==> ':' !in r.0.value && r.0.value + ":" + r.1.value == decoded.s
  {
    if decoded.PNone? then (None, None)
    else if !decoded.PStr? then (None, None)
    else if ':' !in decoded.s then (None, None)
    else
      match SplitFirst(decoded.s, ':')
      case Some((email, password)) => (Some(email), Some(password))
  }

  /** The credentials of `email:pwd` are `email` and `pwd` whenever the
      email has no colon, whatever the password holds. */
  lemma CredentialsOfPair(email: string, pwd: string)
    requires ':' !in email
    ensures ExtractUserCredentials(PStr(email + ":" + pwd)) == (Some(email), Some(pwd))
  {
    SplitFirstOf(email, ':', pwd);
    assert email + ":" + pwd == email + [':'] + pwd;
  }

  lemma CredentialsSplitAtFirstColon()
    ensures ExtractUserCredentials(PStr("a:b:c")) == (Some("a"), Some("b:c"))
  {
    SplitFirstOf("a", ':', "b:c");
    assert "a" + [':'] + "b:c" == "a:b:c";
  }

  lemma CredentialsOfLoneColon()
    ensures ExtractUserCredentials(PStr(":")) == (Some(""), Some(""))
  {
    SplitFirstOf("", ':', "");
    assert "" + [':'] + "" == ":";
  }

  lemma CredentialsNeedAColon()
    ensures ExtractUserCredentials(PStr("no-colon-here")) == (None, None)
  {
    var s := "no-colon-here";
    assert forall i :: 0 <= i < |s| ==> s[i] != ':';
  }

  /** The index of the first user whose password check succeeds. */
  function FirstValid<U>(users: seq<U>, pwd: string, isValidPassword: (U, string) -> bool): (r: Option<nat>)
    ensures r.None? <==> forall i :: 0 <= i < |users| ==> !isValidPassword(users[i], pwd)
    ensures r.Some? ==> r.value < |users| && isValidPassword(users[r.value], pwd)
    ensures r.Some? ==> forall j :: 0 <= j < r.value ==> !isValidPassword(users[j], pwd)
  {
    if users == [] then None
    else if isValidPassword(users[0], pwd) then Some(0)
    else
      match FirstValid(users[1..], pwd, isValidPassword)
      case None => None
      case Some(i) => Some(i + 1)
  }

  /** `user_object_from_credentials`. */
  function UserObjectFromCredentials<U>(email: PyValue, pwd: PyValue,
                                        search: string -> SearchResult<U>,
                                        isValidPassword: (U, string) -> bool): (r: Option<U>)
    ensures !email.PStr? || !pwd.PStr? ==> r.None?
    ensures email.PStr? && search(email.s).Fail? ==> r.None?
    ensures r.Some? <==> email.PStr? && pwd.PStr? && search(email.s).Found?
                         && exists i :: 0 <= i < |search(email.s).users| && isValidPassword(search(email.s).users[i], pwd.s)
    ensures r.Some? ==> exists i :: 0 <= i < |search(email.s).users|
                         && r.value == search(email.s).users[i]
                         && isValidPassword(r.value, pwd.s)
                         && forall j :: 0 <= j < i ==> !isValidPassword(search(email.s).users[j], pwd.s)
  {
    if email.PNone? || !email.PStr? then None
    else if pwd.PNone? || !pwd.PStr? then None
    else
      match search(email.s)
      case Fail => None
      case Found(users) =>
        match FirstValid(users, pwd.s, isValidPassword)
        case None => None
        case Some(i) => Some(users[i])
  }

  /** The token `current_user` passes on is what follows "Basic " in the
      request's `Authorization` header. */
  lemma TokenOfBasicHeader(request: Option<Auth.Headers>)
    requires request.Some? && "Authorization" in request.value
    requires StartsWith(request.value["Authorization"], BASIC_PREFIX)
    ensures ExtractBase64AuthorizationHeader(FromOption(Auth.AuthorizationHeader(request)))
         == Some(request.value["Authorization"][|BASIC_PREFIX|..])
  {
    var h := request.value["Authorization"];
    assert h == BASIC_PREFIX + h[|BASIC_PREFIX|..];
    ExtractAfterPrefix(h[|BASIC_PREFIX|..]);
  }

  /** `BasicAuth.current_user`: header, token, decoding, split, lookup. */
  function CurrentUser<U>(request: Option<Auth.Headers>,
                          search: string -> SearchResult<U>,
                          isValidPassword: (U, string) -> bool): (r: Option<U>)
    ensures request.None? ==> r.None?
    ensures r.Some? ==> request.Some? && "Authorization" in request.value
                        && StartsWith(request.value["Authorization"], BASIC_PREFIX)
    ensures r.Some? ==>
              exists email: string, pwd: string ::
                ':' !in email
                && DecodeBase64AuthorizationHeader(PStr(request.value["Authorization"][|BASIC_PREFIX|..]))
                   == Some(email + ":" + pwd)
                && r == UserObjectFromCredentials(PStr(email), PStr(pwd), search, isValidPassword)
    ensures request.Some? && "Authorization" in request.value
            && StartsWith(request.value["Authorization"], BASIC_PREFIX) ==>
              forall email: string, pwd: string ::
                ':' !in email
                && DecodeBase64AuthorizationHeader(PStr(request.value["Authorization"][|BASIC_PREFIX|..]))
                   == Some(email + ":" + pwd)
                ==> r == UserObjectFromCredentials(PStr(email), PStr(pwd), search, isValidPassword)
  {
    var header := Auth.AuthorizationHeader(request);
    var token := ExtractBase64AuthorizationHeader(FromOption(header));
    var decoded := DecodeBase64AuthorizationHeader(FromOption(token));
    var credentials := ExtractUserCredentials(FromOption(decoded));
    var user := UserObjectFromCredentials(FromOption(credentials.0), FromOption(credentials.1), search, isValidPassword);
    assert user.Some? ==>
             exists email: string, pwd: string ::
               ':' !in email
               && DecodeBase64AuthorizationHeader(PStr(request.value["Authorization"][|BASIC_PREFIX|..]))
                  == Some(email + ":" + pwd)
               && user == UserObjectFromCredentials(PStr(email), PStr(pwd), search, isValidPassword)
    by {
      if user.Some? {
        TokenOfBasicHeader(request);
        var email, pwd := credentials.0.value, credentials.1.value;
        assert decoded == Some(email + ":" + pwd);
      }
    }
    assert request.Some? && "Authorization" in request.value
           && StartsWith(request.value["Authorization"], BASIC_PREFIX) ==>
             forall email: string, pwd: string ::
               ':' !in email
               && DecodeBase64AuthorizationHeader(PStr(request.value["Authorization"][|BASIC_PREFIX|..]))
                  == Some(email + ":" + pwd)
               ==> user == UserObjectFromCredentials(PStr(email), PStr(pwd), search, isValidPassword)
    by {
      if request.Some? && "Authorization" in request.value
         && StartsWith(request.value["Authorization"], BASIC_PREFIX) {
        TokenOfBasicHeader(request);
        forall email: string, pwd: string |
          ':' !in email && decoded == Some(email + ":" + pwd)
          ensures credentials == (Some(email), Some(pwd))
        {
          CredentialsOfPair(email, pwd);
        }
      }
    }
    user
  }

  /** The header a client sends for `email` and `pwd`. */
  function BasicHeader(email: string, pwd: string): string {
    BASIC_PREFIX + Base64.EncodeText(Utf8.Encode(email + ":" + pwd))
  }

  /** End to end: a request carrying the Basic header for `email` and `pwd`
      resolves to the user the store lookup gives for exactly that pair. */
  lemma CurrentUserRoundTrip<U>(headers: Auth.Headers, email: string, pwd: string,
                                search: string -> SearchResult<U>,
                                isValidPassword: (U, string) -> bool)
    requires ':' !in email
    requires "Authorization" in headers && headers["Authorization"] == BasicHeader(email, pwd)
    ensures CurrentUser(Some(headers), search, isValidPassword)
         == UserObjectFromCredentials(PStr(email), PStr(pwd), search, isValidPassword)
  {
    var text := Base64.EncodeText(Utf8.Encode(email + ":" + pwd));
    ExtractAfterPrefix(text);
    DecodeRoundTrip(email + ":" + pwd);
    SplitFirstOf(email, ':', pwd);
    assert email + ":" + pwd == email + [':'] + pwd;
  }

  lemma JohnBytes()
    ensures Utf8.Encode("john:pw123") == [106, 111, 104, 110, 58, 112, 119, 49, 50, 51]
  {
    Utf8.EncodeAscii("john:pw123");
  }

  lemma EncodeLeadingGroup(x: Byte, y: Byte, z: Byte, rest: seq<Byte>)
    requires rest != []
    ensures Base64.Encode([x, y, z] + rest) == Base64.EncodeGroup(x, y, z) + Base64.Encode(rest)
  {
    assert ([x, y, z] + rest)[3..] == rest;
  }

  lemma JohnGroups()
    ensures Base64.EncodeGroup(106, 111, 104) == [0x61, 0x6D, 0x39, 0x6F]
    ensures Base64.EncodeGroup(110, 58, 112) == [0x62, 0x6A, 0x70, 0x77]
    ensures Base64.EncodeGroup(119, 49, 50) == [0x64, 0x7A, 0x45, 0x79]
  {
    assert Base64.EncodeGroup(106, 111, 104) == [Base64.Symbol(26), Base64.Symbol(38), Base64.Symbol(61), Base64.Symbol(40)];
    assert Base64.EncodeGroup(110, 58, 112) == [Base64.Symbol(27), Base64.Symbol(35), Base64.Symbol(41), Base64.Symbol(48)];
    assert Base64.EncodeGroup(119, 49, 50) == [Base64.Symbol(29), Base64.Symbol(51), Base64.Symbol(4), Base64.Symbol(50)];
  }

  lemma JohnLastGroup()
    ensures Base64.Encode([51]) == [0x4D, 0x77, 0x3D, 0x3D]
  {
    assert Base64.EncodeGroup(51, 0, 0) == [Base64.Symbol(12), Base64.Symbol(48), Base64.Symbol(0), Base64.Symbol(0)];
  }

  lemma JohnSymbols()
    ensures Base64.Encode([106, 111, 104, 110, 58, 112, 119, 49, 50, 51])
         == [0x61, 0x6D, 0x39, 0x6F, 0x62, 0x6A, 0x70, 0x77, 0x64, 0x7A, 0x45, 0x79, 0x4D, 0x77, 0x3D, 0x3D]
  {
    JohnGroups();
    JohnLastGroup();
    EncodeLeadingGroup(119, 49, 50, [51]);
    EncodeLeadingGroup(110, 58, 112, [119, 49, 50, 51]);
    EncodeLeadingGroup(106, 111, 104, [110, 58, 112, 119, 49, 50, 51]);
  }

  lemma JohnText()
    ensures Base64.EncodeText([106, 111, 104, 110, 58, 112, 119, 49, 50, 51]) == "am9objpwdzEyMw=="
  {
    JohnSymbols();
    var t := Base64.EncodeText([106, 111, 104, 110, 58, 112, 119, 49, 50, 51]);
    assert |t| == 16;
    assert t[0] == 'a';
    assert t[1] == 'm';
    assert t[2] == '9';
    assert t[3] == 'o';
    assert t[4] == 'b';
    assert t[5] == 'j';
    assert t[6] == 'p';
    assert t[7] == 'w';
    assert t[8] == 'd';
    assert t[9] == 'z';
    assert t[10] == 'E';
    assert t[11] == 'y';
    assert t[12] == 'M';
    assert t[13] == 'w';
    assert t[14] == '=';
    assert t[15] == '=';
  }

  lemma JohnLiterals()
    ensures "john" + ":" + "pw123" == "john:pw123"
    ensures BASIC_PREFIX + "am9objpwdzEyMw==" == "Basic am9objpwdzEyMw=="
  {
  }

  /** The worked example's header is the Basic header for "john" and "pw123". */
  lemma JohnHeader()
    ensures BasicHeader("john", "pw123") == "Basic am9objpwdzEyMw=="
  {
    JohnLiterals();
    calc {
      BasicHeader("john", "pw123");
      BASIC_PREFIX + Base64.EncodeText(Utf8.Encode("john:pw123"));
      { JohnBytes(); }
      BASIC_PREFIX + Base64.EncodeText([106, 111, 104, 110, 58, 112, 119, 49, 50, 51]);
      { JohnText(); }
      "Basic am9objpwdzEyMw==";
    }
  }

  /** The worked example: "Basic am9objpwdzEyMw==" resolves to the stored
      user whose password is "pw123". */
  lemma JohnAccepted<U>(john: U, search: string -> SearchResult<U>, isValidPassword: (U, string) -> bool)
    requires search("john") == Found([john]) && isValidPassword(john, "pw123")
    ensures CurrentUser(Some(map["Authorization" := "Basic am9objpwdzEyMw=="]), search, isValidPassword) == Some(john)
  {
    JohnHeader();
    CurrentUserRoundTrip(map["Authorization" := "Basic am9objpwdzEyMw=="], "john", "pw123", search, isValidPassword);
  }

  /** The same user is not resolved when the header carries a wrong password. */
  lemma JohnWrongPassword<U>(john: U, search: string -> SearchResult<U>, isValidPassword: (U, string) -> bool)
    requires search("john") == Found([john]) && !isValidPassword(john, "wrong")
    ensures CurrentUser(Some(map["Authorization" := BasicHeader("john", "wrong")]), search, isValidPassword) == None
  {
    CurrentUserRoundTrip(map["Authorization" := BasicHeader("john", "wrong")], "john", "wrong", search, isValidPassword);
  }
}
