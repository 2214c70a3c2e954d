/** The platform classifier `osName` of the build helpers. The platform
    string (Python's `sys.platform`) is a parameter here. */
module Platform {
  import opened Results

  /** The OS name for a platform string: the first of the prefixes "darwin",
      "lin", "win" it starts with decides; any other platform has none. */
  function OsName(platform: string): (r: Option<string>)
    ensures r == Some("macos") <==> "darwin" <= platform
    ensures r == Some("linux") <==> !("darwin" <= platform) && "lin" <= platform
    ensures r == Some("windows") <==> !("darwin" <= platform) && !("lin" <= platform) && "win" <= platform
    ensures r.None? <==> !("darwin" <= platform) && !("lin" <= platform) && !("win" <= platform)
  {
    if "darwin" <= platform then Some("macos")
    else if "lin" <= platform then Some("linux")
    else if "win" <= platform then Some("windows")
    else None
  }

  /** Prefix-transitivity of sequences, used to extend a recognised platform. */
  lemma PrefixTrans(a: string, b: string, c: string)
    requires a <= b && b <= c
    ensures a <= c
  {
  }

  /** A recognised platform keeps its OS name under any extension: "linux"
      and "linux2" are both Linux. */
  lemma {:induction false} OsNameStable(platform: string, suffix: string)
    requires OsName(platform).Some?
    ensures OsName(platform + suffix) == OsName(platform)
  {
    var q := platform + suffix;
    assert platform <= q;
    if "darwin" <= platform {
      PrefixTrans("darwin", platform, q);
    } else if "lin" <= platform {
      PrefixTrans("lin", platform, q);
      assert q[0] == 'l';
    } else {
      PrefixTrans("win", platform, q);
    }
  }

  /** The three recognised prefixes start with different letters and so
      exclude one another: testing them in the reverse order gives the same
      OS name. */
  lemma {:induction false} OsNameOrderFree(platform: string)
    ensures OsName(platform) ==
      if "win" <= platform then Some("windows")
      else if "lin" <= platform then Some("linux")
      else if "darwin" <= platform then Some("macos")
      else None
  {
    if "win" <= platform {
      assert platform[0] == 'w';
    } else if "lin" <= platform {
      assert platform[0] == 'l';
    }
  }
}
