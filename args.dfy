/** convertArgs: turns each command-line argument (URL, e-mail address, hostname or
    IP address) into the bare host that is handed to the DNS stage. */
module Args {
  import opened GoStrings

  /** The loop body of convertArgs for one argument, with its three branches in their
      order of precedence. A URL ("://" present) yields the third '/'-separated piece,
      which holds no '/'; otherwise an argument with an '@' yields the text after its
      first '@'; anything else passes through unchanged. */
  function CleanArg(arg: string): (host: string)
    ensures Contains(arg, "://") ==> '/' !in host
    ensures !Contains(arg, "://") && '@' in arg ==>
      && |host| < |arg|
      && '@' !in arg[..|arg| - |host| - 1]
      && arg == arg[..|arg| - |host| - 1] + "@" + host
    ensures !Contains(arg, "://") && '@' !in arg ==> host == arg
  {
    if Contains(arg, "://") then
      SchemeHasTwoSlashes(arg);
      SplitNLength(arg, '/', 4);
      if Count(arg, '/') == 2 then
        SplitNLastFree(arg, '/', 4);
        SplitN(arg, '/', 4)[2]
      else
        SplitNPiecesFree(arg, '/', 4, 2);
        SplitN(arg, '/', 4)[2]
    else if '@' in arg then
      CountZero(arg, '@');
      SplitNLength(arg, '@', 2);
      SplitNJoin(arg, '@', 2);
      SplitNPiecesFree(arg, '@', 2, 0);
      var slots := SplitN(arg, '@', 2);
      JoinCons(slots[0], [slots[1]], '@');
      assert arg == slots[0] + ['@'] + slots[1];
      assert arg[..|arg| - |slots[1]| - 1] == slots[0];
      slots[1]
    else
      arg
  }

  /** convertArgs: one cleaned argument per raw argument, in the same order. */
  method ConvertArgs(rawArgs: seq<string>) returns (cleanArgs: seq<string>)
    ensures |cleanArgs| == |rawArgs|
    ensures forall i :: 0 <= i < |rawArgs| ==> cleanArgs[i] == CleanArg(rawArgs[i])
  {
    cleanArgs := [];
    for entry := 0 to |rawArgs|
      invariant |cleanArgs| == entry
      invariant forall i :: 0 <= i < entry ==> cleanArgs[i] == CleanArg(rawArgs[i])
    {
      var host := CleanArg(rawArgs[entry]);
      cleanArgs := cleanArgs + [host];
    }
  }

  /** For an argument containing "://", the result is exactly the third '/'-separated
      piece: whatever stands between the second '/' and the third '/' (or the end). */
  lemma UrlThirdPiece(arg: string, a: string, b: string, host: string, rest: string)
    requires arg == a + "/" + (b + "/" + (host + rest))
    requires '/' !in a && '/' !in b && '/' !in host
    requires rest == [] || rest[0] == '/'
    requires Contains(arg, "://")
    ensures CleanArg(arg) == host
  {
    ThirdPiece(a, b, host, rest);
  }

  /** The third piece of SplitN(arg, "/", 4) for an argument "a/b/host" followed by nothing
      or by a path. */
  lemma ThirdPiece(a: string, b: string, host: string, rest: string)
    requires '/' !in a && '/' !in b && '/' !in host
    requires rest == [] || rest[0] == '/'
    ensures |SplitN(a + "/" + (b + "/" + (host + rest)), '/', 4)| > 2
    ensures SplitN(a + "/" + (b + "/" + (host + rest)), '/', 4)[2] == host
  {
    var s2 := host + rest;
    var s1 := b + "/" + s2;
    SplitNFirst(a + "/" + s1, '/', 4, a, s1);
    SplitNFirst(s1, '/', 3, b, s2);
    HostPiece(host, rest);
    ThirdOf(SplitN(s1, '/', 3), SplitN(s2, '/', 2), a, b);
  }

  /** The third element of `[a, b] + t2` is the first of `t2`. */
  lemma ThirdOf(t3: seq<string>, t2: seq<string>, a: string, b: string)
    requires |t2| > 0 && t3 == [b] + t2
    ensures |[a] + t3| > 2 && ([a] + t3)[2] == t2[0]
  {
  }

  /** The authority and what follows it: the first piece is the authority. */
  lemma HostPiece(host: string, rest: string)
    requires '/' !in host
    requires rest == [] || rest[0] == '/'
    ensures SplitN(host + rest, '/', 2)[0] == host
  {
    if rest == [] {
      assert host + rest == host;
      SplitNNone(host, '/', 2);
    } else {
      assert rest == [rest[0]] + rest[1..];
      assert host + rest == host + ['/'] + rest[1..];
      SplitNFirst(host + rest, '/', 2, host, rest[1..]);
    }
  }

  /** A URL "scheme://host/path" (or "scheme://host") yields its host when the scheme
      holds no '/'. The host may itself hold an '@': "://" is tested first. */
  lemma UrlHost(arg: string, scheme: string, host: string, rest: string)
    requires arg == scheme + "://" + host + rest
    requires '/' !in scheme && '/' !in host
    requires rest == [] || rest[0] == '/'
    ensures CleanArg(arg) == host
  {
    assert OccursAt(arg, "://", |scheme|) by {
      assert arg[|scheme|..|scheme| + 3] == "://";
    }
    ContainsIff(arg, "://");
    assert arg == (scheme + ":") + "/" + ("" + "/" + (host + rest));
    UrlThirdPiece(arg, scheme + ":", "", host, rest);
  }

  /** An argument without "://" that holds an '@' yields the text after its first '@'. */
  lemma EmailHost(arg: string, user: string, host: string)
    requires arg == user + "@" + host
    requires '@' !in user
    requires !Contains(arg, "://")
    ensures CleanArg(arg) == host
  {
    var r := CleanArg(arg);
    assert arg[|user|] == '@';
    var u := arg[..|arg| - |r| - 1];
    assert arg[..|user|] == user;
    IndexAt(arg, '@', |user|);
    assert arg[..|u|] == u;
    assert arg[|u|] == '@';
    IndexAt(arg, '@', |u|);
    assert r == arg[|u| + 1..];
    assert host == arg[|user| + 1..];
  }

  /** Text without a ':' can never contain "://". */
  lemma NoColonNoScheme(s: string)
    requires ':' !in s
    ensures !Contains(s, "://")
  {
    ContainsIff(s, "://");
    forall i: nat | i <= |s| - 3
      ensures !OccursAt(s, "://", i)
    {
      assert s[i] in s;
      assert s[i..i + 3][0] == s[i];
    }
  }

  /** When a '/' comes before the first "://", the piece returned is not the text that
      follows "://": here the result is empty although "c" follows "://". */
  lemma SlashBeforeScheme()
    ensures CleanArg("a/b://c") == ""
  {
    assert OccursAt("a/b://c", "://", 3) by {
      assert "a/b://c"[3..6] == "://";
    }
    ContainsIff("a/b://c", "://");
    assert "a/b://c" == "a" + "/" + ("b:" + "/" + ("" + "/c"));
    UrlThirdPiece("a/b://c", "a", "b:", "", "/c");
  }

  /** Worked example: a URL yields its host. */
  lemma ExampleUrl()
    ensures CleanArg("https://cisco.com") == "cisco.com"
  {
    UrlHost("https://cisco.com", "https", "cisco.com", "");
  }

  /** Worked example: an e-mail address yields its domain. */
  lemma ExampleEmail()
    ensures CleanArg("user@github.com") == "github.com"
  {
    var user, domain := "user", "github.com";
    assert ':' !in user && ':' !in domain;
    assert "user@github.com" == user + "@" + domain;
    NoColonNoScheme(user + "@" + domain);
    EmailHost(user + "@" + domain, user, domain);
  }

  /** Worked example: a bare address passes through. */
  lemma ExampleAddress()
    ensures CleanArg("1.2.3.4") == "1.2.3.4"
  {
    NoColonNoScheme("1.2.3.4");
  }

  /** Worked example: "://" is tested before '@', so the user part stays in the result. */
  lemma ExampleUrlWithUser()
    ensures CleanArg("ftp://user@host.org/file") == "user@host.org"
  {
    UrlHost("ftp://user@host.org/file", "ftp", "user@host.org", "/file");
  }
}
