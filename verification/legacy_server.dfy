/** `server.py`, the older script: at start-up it builds the replacement
    dict from the environment and rewrites `/docker/scan_config.SF2`. */
module LegacyServer {
  import opened Outcomes
  import opened Substitution
  import opened Environment


  /** The dict `update_config` builds: `SCANNER_IP` (required), then `DPI`
      (default 300), in that order. */
  function ConfigMap(env: Env): (r: Result<ReplaceMap, Fatal>)
    ensures r.Success? <==> ScannerIpVar in env
    ensures r.Failure? ==> r.error == Fatal(1, MustBeSet(ScannerIpVar))
    ensures r.Success? ==>
      && |r.value| == 2
      && r.value[0] == (ScannerIpVar, env[ScannerIpVar])
      && r.value[1] == (DpiVar, Dpi(env))
  {
    match GetEnvVar(env, ScannerIpVar, None, true)
    case Failure(f) => Failure(f)
    case Success(ip) =>
      match GetEnvVar(env, DpiVar, Some(DefaultDpi), false)
      case Failure(f) => Failure(f)
      case Success(dpi) => Success([(ScannerIpVar, ip), (DpiVar, dpi)])
  }

  /** `update_config_file` as written: each `new_config.replace(key, value)`
      is computed and dropped, so what is written back is what was read,
      whatever the dict holds. */
  function UpdateConfigFileAsWritten(text: string, m: ReplaceMap): (written: string)
    ensures written == text
    decreases |m|
  {
    if |m| == 0 then text
    else
      var dropped := Replace(text, m[0].0, m[0].1);
      UpdateConfigFileAsWritten(text, m[1..])
  }

  /** `update_config_file` with the result of each `replace` kept: the dict
      is applied in order, and a placeholder that occurs in the file is
      really replaced by a value that differs from it. */
  function UpdateConfigFile(text: string, m: ReplaceMap): (written: string)
    ensures |m| == 1 && |m[0].0| > 0 && Occurs(text, m[0].0) && m[0].1 != m[0].0 ==> written != text
  {
    SingleRewriteTakesEffect(text, m);
    ApplyReplacements(text, m)
  }

  lemma {:induction false} SingleRewriteTakesEffect(text: string, m: ReplaceMap)
    ensures |m| == 1 && |m[0].0| > 0 && Occurs(text, m[0].0) && m[0].1 != m[0].0 ==> ApplyReplacements(text, m) != text
  {
    if |m| == 1 && |m[0].0| > 0 && Occurs(text, m[0].0) && m[0].1 != m[0].0 {
      ApplySingle(text, m[0].0, m[0].1);
      ReplaceTakesEffect(text, m[0].0, m[0].1);
      assert m == [(m[0].0, m[0].1)];
    }
  }

  /** `update_config`: stop when `SCANNER_IP` is missing, otherwise
      substitute the address and then the resolution. */
  function UpdateConfig(env: Env, text: string): (r: Result<string, Fatal>)
    ensures r.Failure? <==> ScannerIpVar !in env
    ensures r.Success? ==>
      r.value == Replace(Replace(text, ScannerIpVar, env[ScannerIpVar]), DpiVar, Dpi(env))
  {
    match ConfigMap(env)
    case Failure(f) => Failure(f)
    case Success(m) =>
      ApplySingle(text, m[0].0, m[0].1);
      ApplyReplacementsInOrder(text, [m[0]], m[1].0, m[1].1);
      assert m == [m[0]] + [(m[1].0, m[1].1)];
      Success(UpdateConfigFile(text, m))
  }

  /** Where the template holds the address placeholder, the file as written
      keeps it, while the intended rewrite changes the file and puts the
      address into it. */
  lemma {:induction false} RewriteMissesScannerIp(text: string, ip: string)
    requires Occurs(text, ScannerIpVar) && ip != ScannerIpVar
    ensures Occurs(UpdateConfigFileAsWritten(text, [(ScannerIpVar, ip)]), ScannerIpVar)
    ensures UpdateConfigFile(text, [(ScannerIpVar, ip)]) != text
    ensures Occurs(UpdateConfigFile(text, [(ScannerIpVar, ip)]), ip)
  {
    ApplySingle(text, ScannerIpVar, ip);
    ReplaceInsertsValue(text, ScannerIpVar, ip);
  }

  /** The two placeholders cannot overlap: `SCANNER_IP` holds no `D`, and
      `DPI` continues with letters other than the `S` that starts it. */
  lemma {:induction false} PlaceholdersDisjoint(t: string, i: int, j: int)
    requires OccursAt(t, DpiVar, i) && i - |ScannerIpVar| < j < i + |DpiVar|
    ensures !OccursAt(t, ScannerIpVar, j)
  {
    assert t[i..][..3] == DpiVar;
    if 0 <= j <= i {
      assert t[i] == 'D' by {
        assert t[i..][0] == t[i];
      }
      assert ScannerIpVar[i - j] != 'D';
      if |t[j..]| > i - j {
        assert t[j..][i - j] == t[i];
      }
    } else if i < j <= |t| {
      assert t[j] == DpiVar[j - i] by {
        assert t[i..][j - i] == t[j];
      }
      if |t[j..]| > 0 {
        assert t[j..][0] == t[j];
      }
    }
  }

  /** An address spelled without the letters of `DPI` cannot overlap an
      occurrence of that placeholder. */
  lemma {:induction false} AddressAvoidsDpi(r: string, ip: string, pos: int, j: int)
    requires |ip| > 0 && OccursAt(r, ip, pos) && forall k :: 0 <= k < |ip| ==> ip[k] !in DpiVar
    requires pos - |DpiVar| < j < pos + |ip|
    ensures !OccursAt(r, DpiVar, j)
  {
    var p := if j < pos then pos else j;
    assert ip <= r[pos..];
    assert r[p] == ip[p - pos] by {
      assert r[pos..][p - pos] == r[p];
    }
    assert r[p] !in DpiVar;
    if 0 <= j && |r[j..]| > p - j {
      assert r[j..][p - j] == r[p];
      assert DpiVar[p - j] in DpiVar;
    }
  }

  /** With the result of each `replace` kept, the dict `update_config` builds
      brings the resolution into the file wherever the template holds `DPI`,
      and the address wherever it holds `SCANNER_IP`, unless the address itself
      contains a letter of `DPI` that the second replacement might consume. */
  lemma {:induction false} RewritePlacesValues(env: Env, text: string)
    requires ScannerIpVar in env
    ensures Occurs(text, DpiVar) ==> Occurs(UpdateConfig(env, text).value, Dpi(env))
    ensures var ip := env[ScannerIpVar];
      Occurs(text, ScannerIpVar) && (forall k :: 0 <= k < |ip| ==> ip[k] !in DpiVar) ==>
      Occurs(UpdateConfig(env, text).value, ip)
  {
    var ip := env[ScannerIpVar];
    var mid := Replace(text, ScannerIpVar, ip);
    var out := UpdateConfig(env, text).value;
    assert out == Replace(mid, DpiVar, Dpi(env));
    if Occurs(text, DpiVar) {
      var i :| 0 <= i <= |text| && OccursAt(text, DpiVar, i);
      forall j | 0 <= j < |text| && i - |ScannerIpVar| < j < i + |DpiVar|
        ensures !OccursAt(text, ScannerIpVar, j)
      {
        PlaceholdersDisjoint(text, i, j);
      }
      ReplaceKeepsOccurrence(text, ScannerIpVar, ip, DpiVar, i);
      ReplaceInsertsValue(mid, DpiVar, Dpi(env));
    }
    if |ip| == 0 {
      assert OccursAt(out, ip, 0);
    } else if Occurs(text, ScannerIpVar) && (forall k :: 0 <= k < |ip| ==> ip[k] !in DpiVar) {
      ReplaceInsertsValue(text, ScannerIpVar, ip);
      var pos :| 0 <= pos <= |mid| && OccursAt(mid, ip, pos);
      forall j | 0 <= j < |mid| && pos - |DpiVar| < j < pos + |ip|
        ensures !OccursAt(mid, DpiVar, j)
      {
        AddressAvoidsDpi(mid, ip, pos, j);
      }
      ReplaceKeepsOccurrence(mid, DpiVar, Dpi(env), ip, pos);
    }
  }

  /** An address containing `DPI` is itself rewritten by the second entry. */
  lemma {:induction false} AddressSpellingDpiIsRewritten()
    ensures UpdateConfig(map[ScannerIpVar := "DPI"], ScannerIpVar) == Success(DefaultDpi)
  {
    var env := map[ScannerIpVar := "DPI"];
    assert Replace(ScannerIpVar, ScannerIpVar, "DPI") == "DPI" by {
      ReplaceHit(ScannerIpVar, ScannerIpVar, "DPI");
      assert ScannerIpVar[|ScannerIpVar|..] == [];
    }
    assert Replace("DPI", DpiVar, DefaultDpi) == DefaultDpi by {
      ReplaceHit("DPI", DpiVar, DefaultDpi);
      assert "DPI"[|DpiVar|..] == [];
    }
    assert Dpi(env) == DefaultDpi;
  }
}
