/** The last step of awsmfalogin.py's `main` (awsmfalogin.py:214-225): for
    every selected profile `p` it copies the configuration section of `p` to
    `profile mfa-<p>` and stores the issued session under `mfa-<p>` in the
    credentials file, then writes both files back. */
module Merge {
  import opened Results
  import opened Text
  import opened CredentialFile
  import opened RoundTrip
  import opened Selection

  /** `sts_profile`: the name of the profile that holds the session of `p`. */
  function DerivedName(p: string): (r: string)
    ensures StartsWith(r, "mfa-") && r[4..] == p
  {
    "mfa-" + p
  }

  /** The configuration section written for `p`. */
  function DerivedConfigName(p: string): (r: string)
    ensures StartsWith(r, "profile mfa-") && r[12..] == p
  {
    "profile " + DerivedName(p)
  }

  /** A configuration name the merge of `profiles` writes. */
  predicate WrittenConfigName(k: string, profiles: seq<string>) {
    StartsWith(k, "profile mfa-") && k[12..] in profiles
  }

  /** A credentials name the merge of `profiles` writes. */
  predicate WrittenCredsName(k: string, profiles: seq<string>) {
    StartsWith(k, "mfa-") && k[4..] in profiles
  }

  /** The two `KeyError`s the loop can raise. */
  datatype MergeError =
    | NoConfigSection(profile: string)   // neither `p` nor `profile p` in the configuration
    | NoIssuedSession(profile: string)   // no session was issued for `p`

  /** The configuration section `p` is copied from: the one named `p` if
      there is one, else the one named `profile p` (awsmfalogin.py:216-219). */
  function Source(config: IniFile, p: string): (r: Option<Section>)
    ensures r.Some? <==> p in config || "profile " + p in config
    ensures p in config ==> r == Some(config[p])
    ensures p !in config && "profile " + p in config ==> r == Some(config["profile " + p])
  {
    if p in config then Some(config[p])
    else if "profile " + p in config then Some(config["profile " + p])
    else None
  }

  /** One pass of the loop, on the files as earlier passes left them. */
  function MergeStep(config: IniFile, creds: IniFile, issued: map<string, Section>, p: string)
    : (r: Result<(IniFile, IniFile), MergeError>)
    ensures r.Ok? <==> Source(config, p).Some? && p in issued
    ensures Source(config, p).None? ==> r == Err(NoConfigSection(p))
    ensures r.Ok? ==> r.value.0.Keys == config.Keys + {DerivedConfigName(p)}
    ensures r.Ok? ==> r.value.0[DerivedConfigName(p)] == Source(config, p).value
    ensures r.Ok? ==> forall k :: k in config && k != DerivedConfigName(p) ==> r.value.0[k] == config[k]
    ensures r.Ok? ==> r.value.1.Keys == creds.Keys + {DerivedName(p)}
    ensures r.Ok? ==> r.value.1[DerivedName(p)] == issued[p]
    ensures r.Ok? ==> forall k :: k in creds && k != DerivedName(p) ==> r.value.1[k] == creds[k]
  {
    match Source(config, p)
    case None => Err(NoConfigSection(p))
    case Some(section) =>
      if p !in issued then Err(NoIssuedSession(p))
      else Ok((config[DerivedConfigName(p) := section], creds[DerivedName(p) := issued[p]]))
  }

  /** The whole loop: the passes in the order of `profiles`, stopping at the
      first error. */
  function MergeAll(config: IniFile, creds: IniFile, issued: map<string, Section>, profiles: seq<string>)
    : Result<(IniFile, IniFile), MergeError>
    decreases |profiles|
  {
    if profiles == [] then Ok((config, creds))
    else
      match MergeStep(config, creds, issued, profiles[0])
      case Err(e) => Err(e)
      case Ok(next) => MergeAll(next.0, next.1, issued, profiles[1..])
  }

  /** The loop of `main` (awsmfalogin.py:214-220), on the two parsed files. */
  method Merge(config: IniFile, creds: IniFile, issued: map<string, Section>, profiles: seq<string>)
    returns (r: Result<(IniFile, IniFile), MergeError>)
    ensures r == MergeAll(config, creds, issued, profiles)
  {
    var cfg, crd := config, creds;
    for k := 0 to |profiles|
      invariant MergeAll(cfg, crd, issued, profiles[k..]) == MergeAll(config, creds, issued, profiles)
    {
      var p := profiles[k];
      var source: Section;
      if p in cfg {
        source := cfg[p];
      } else if "profile " + p in cfg {
        source := cfg["profile " + p];
      } else {
        return Err(NoConfigSection(p));
      }
      cfg := cfg["profile " + ("mfa-" + p) := source];
      if p !in issued {
        return Err(NoIssuedSession(p));
      }
      crd := crd["mfa-" + p := issued[p]];
      assert profiles[k..][1..] == profiles[k + 1..];
    }
    assert profiles[|profiles|..] == [];
    return Ok((cfg, crd));
  }

  // ---------------------------------------------------------------------
  // What the loop comes to

  /** Profiles whose passes do not read what other passes write: none is
      itself a derived name, in either file's spelling. `Selection.Selectable`
      already leaves out the first kind. */
  predicate Independent(profiles: seq<string>) {
    forall p :: p in profiles ==> !StartsWith(p, "mfa-") && !StartsWith(p, "profile mfa-")
  }

  lemma PrefixSplit(k: string, prefix: string)
    requires StartsWith(k, prefix)
    ensures k == prefix + k[|prefix|..]
  {
  }

  /** The profiles the menu offers, and any choice among them, are
      independent as long as no credentials section is named
      `profile mfa-...`: the menu already leaves out the `mfa-` ones. */
  lemma ChoiceIsIndependent(profiles: seq<string>, indices: seq<nat>)
    requires forall p :: p in profiles ==> !StartsWith(p, "profile mfa-")
    ensures Independent(Selectable(profiles))
    ensures Independent(Picked(Selectable(profiles), indices))
  {
    PickedFromSelectable(Selectable(profiles), indices);
  }

  /** `profile <q>` is a derived configuration name exactly when `q` is a
      derived credentials name. */
  lemma ProfilePrefix(q: string)
    ensures StartsWith("profile " + q, "profile mfa-") <==> StartsWith(q, "mfa-")
  {
    var s := "profile " + q;
    if |q| >= 4 {
      assert s[..12] == "profile " + q[..4];
      assert ("profile " + q[..4])[8..] == q[..4];
      assert "profile mfa-"[8..] == "mfa-";
    }
  }

  /** For a profile that is no derived name, neither name `Source` looks up
      is one the merge writes. */
  lemma LookupNamesNotWritten(q: string, profiles: seq<string>)
    requires !StartsWith(q, "mfa-") && !StartsWith(q, "profile mfa-")
    ensures !WrittenConfigName(q, profiles) && !WrittenConfigName("profile " + q, profiles)
  {
    ProfilePrefix(q);
  }

  /** The names written by a merge of `profiles`: those of its first profile
      and those of the rest. */
  lemma WrittenCons(k: string, profiles: seq<string>)
    requires profiles != []
    ensures WrittenConfigName(k, profiles) <==>
      k == DerivedConfigName(profiles[0]) || WrittenConfigName(k, profiles[1..])
    ensures WrittenCredsName(k, profiles) <==>
      k == DerivedName(profiles[0]) || WrittenCredsName(k, profiles[1..])
  {
    assert forall q :: q in profiles <==> q == profiles[0] || q in profiles[1..];
    if StartsWith(k, "profile mfa-") {
      PrefixSplit(k, "profile mfa-");
    }
    if StartsWith(k, "mfa-") {
      PrefixSplit(k, "mfa-");
    }
  }

  /** Writing `profile mfa-<p>` leaves what `Source` finds for an
      independent profile as it was. */
  lemma SourceAfterWrite(config: IniFile, p: string, section: Section, q: string)
    requires !StartsWith(q, "mfa-") && !StartsWith(q, "profile mfa-")
    ensures Source(config[DerivedConfigName(p) := section], q) == Source(config, q)
  {
    LookupNamesNotWritten(q, [p]);
    WrittenCons(DerivedConfigName(p), [p]);
  }

  /** The loop succeeds exactly when every selected profile has a
      configuration section and an issued session. */
  lemma {:induction false} MergeSucceeds(config: IniFile, creds: IniFile, issued: map<string, Section>, profiles: seq<string>)
    requires Independent(profiles)
    ensures MergeAll(config, creds, issued, profiles).Ok? <==>
      forall p :: p in profiles ==> Source(config, p).Some? && p in issued
    decreases |profiles|
  {
    if profiles != [] {
      var p := profiles[0];
      var rest := profiles[1..];
      assert forall q :: q in profiles <==> q == p || q in rest;
      var step := MergeStep(config, creds, issued, p);
      if step.Ok? {
        MergeSucceeds(step.value.0, step.value.1, issued, rest);
        forall q | q in rest
          ensures Source(step.value.0, q) == Source(config, q)
        {
          SourceAfterWrite(config, p, Source(config, p).value, q);
        }
      }
    }
  }

  /** `after` is the configuration `before` once `profiles` are merged:
      every other section as it was, and `profile mfa-<p>` a copy of the
      section `p` has in `before`. */
  ghost predicate ConfigMerged(before: IniFile, after: IniFile, profiles: seq<string>) {
    (forall k :: k in after <==> k in before || WrittenConfigName(k, profiles)) &&
    (forall k :: k in before && !WrittenConfigName(k, profiles) ==> after[k] == before[k]) &&
    (forall p :: p in profiles ==>
      Source(before, p).Some? && DerivedConfigName(p) in after && after[DerivedConfigName(p)] == Source(before, p).value)
  }

  /** `after` is the credentials `before` once `profiles` are merged: every
      other section as it was, and the session issued for `p` under `mfa-<p>`. */
  ghost predicate CredsMerged(before: IniFile, after: IniFile, issued: map<string, Section>, profiles: seq<string>) {
    (forall k :: k in after <==> k in before || WrittenCredsName(k, profiles)) &&
    (forall k :: k in before && !WrittenCredsName(k, profiles) ==> after[k] == before[k]) &&
    (forall p :: p in profiles ==> p in issued && DerivedName(p) in after && after[DerivedName(p)] == issued[p])
  }

  /** What a successful loop leaves in the configuration file, for
      independent profiles. */
  lemma {:induction false} MergeConfigEffect(config: IniFile, creds: IniFile, issued: map<string, Section>, profiles: seq<string>)
    requires Independent(profiles)
    requires MergeAll(config, creds, issued, profiles).Ok?
    ensures ConfigMerged(config, MergeAll(config, creds, issued, profiles).value.0, profiles)
    decreases |profiles|
  {
    if profiles != [] {
      var p := profiles[0];
      var rest := profiles[1..];
      assert forall q :: q in profiles <==> q == p || q in rest;
      var section := Source(config, p).value;
      var next := MergeStep(config, creds, issued, p).value;
      var after := MergeAll(config, creds, issued, profiles).value.0;
      assert after == MergeAll(next.0, next.1, issued, rest).value.0;
      MergeConfigEffect(next.0, next.1, issued, rest);
      forall k
        ensures WrittenConfigName(k, profiles) <==> k == DerivedConfigName(p) || WrittenConfigName(k, rest)
      {
        WrittenCons(k, profiles);
      }
      forall q | q in rest
        ensures Source(next.0, q) == Source(config, q)
      {
        SourceAfterWrite(config, p, section, q);
      }
      if p !in rest {
        WrittenCons(DerivedConfigName(p), [p]);
        assert !WrittenConfigName(DerivedConfigName(p), rest);
      }
    }
  }

  /** What a successful loop leaves in the credentials file. */
  lemma {:induction false} MergeCredsEffect(config: IniFile, creds: IniFile, issued: map<string, Section>, profiles: seq<string>)
    requires MergeAll(config, creds, issued, profiles).Ok?
    ensures CredsMerged(creds, MergeAll(config, creds, issued, profiles).value.1, issued, profiles)
    decreases |profiles|
  {
    if profiles != [] {
      var p := profiles[0];
      var rest := profiles[1..];
      assert forall q :: q in profiles <==> q == p || q in rest;
      var next := MergeStep(config, creds, issued, p).value;
      var after := MergeAll(config, creds, issued, profiles).value.1;
      assert after == MergeAll(next.0, next.1, issued, rest).value.1;
      MergeCredsEffect(next.0, next.1, issued, rest);
      forall k
        ensures WrittenCredsName(k, profiles) <==> k == DerivedName(p) || WrittenCredsName(k, rest)
      {
        WrittenCons(k, profiles);
      }
      if p !in rest {
        assert !WrittenCredsName(DerivedName(p), rest);
      }
    }
  }

  /** Merging into an already merged configuration, where the sources read
      the same, gives it back. */
  lemma ConfigMergedStable(before: IniFile, after: IniFile, again: IniFile, profiles: seq<string>)
    requires ConfigMerged(before, after, profiles) && ConfigMerged(after, again, profiles)
    requires forall p :: p in profiles ==> Source(after, p) == Source(before, p)
    ensures again == after
  {
    forall k | WrittenConfigName(k, profiles)
      ensures again[k] == after[k]
    {
      PrefixSplit(k, "profile mfa-");
      assert k == DerivedConfigName(k[12..]);
    }
  }

  lemma CredsMergedStable(before: IniFile, after: IniFile, again: IniFile, issued: map<string, Section>, profiles: seq<string>)
    requires CredsMerged(before, after, issued, profiles) && CredsMerged(after, again, issued, profiles)
    ensures again == after
  {
    forall k | WrittenCredsName(k, profiles)
      ensures again[k] == after[k]
    {
      PrefixSplit(k, "mfa-");
      assert k == DerivedName(k[4..]);
    }
  }

  /** Running the loop again on what it wrote changes nothing. */
  lemma MergeIdempotent(config: IniFile, creds: IniFile, issued: map<string, Section>, profiles: seq<string>)
    requires Independent(profiles)
    requires MergeAll(config, creds, issued, profiles).Ok?
    ensures var r := MergeAll(config, creds, issued, profiles).value;
      MergeAll(r.0, r.1, issued, profiles) == Ok(r)
  {
    var r := MergeAll(config, creds, issued, profiles).value;
    MergeConfigEffect(config, creds, issued, profiles);
    MergeCredsEffect(config, creds, issued, profiles);
    forall q | q in profiles
      ensures Source(r.0, q) == Source(config, q)
    {
      LookupNamesNotWritten(q, profiles);
    }
    MergeSucceeds(r.0, r.1, issued, profiles);
    var again := MergeAll(r.0, r.1, issued, profiles).value;
    MergeConfigEffect(r.0, r.1, issued, profiles);
    MergeCredsEffect(r.0, r.1, issued, profiles);
    ConfigMergedStable(config, r.0, again.0, profiles);
    CredsMergedStable(creds, r.1, again.1, issued, profiles);
  }

  /** A merge keeps a configuration writable as lines when the profile names are. */
  lemma ConfigMergedWellFormed(before: IniFile, after: IniFile, profiles: seq<string>)
    requires ConfigMerged(before, after, profiles) && WellFormed(before)
    requires forall p :: p in profiles ==> '\n' !in p
    ensures WellFormed(after)
  {
    forall k | k in after
      ensures '\n' !in k && WellFormedSection(after[k])
    {
      if WrittenConfigName(k, profiles) {
        var q := k[12..];
        PrefixSplit(k, "profile mfa-");
        assert k == DerivedConfigName(q);
        assert '\n' !in "profile mfa-";
        if q in before {
          assert after[k] == before[q];
        } else {
          assert after[k] == before["profile " + q];
        }
      }
    }
  }

  /** Likewise for the credentials, when the issued sessions are. */
  lemma CredsMergedWellFormed(before: IniFile, after: IniFile, issued: map<string, Section>, profiles: seq<string>)
    requires CredsMerged(before, after, issued, profiles) && WellFormed(before)
    requires forall p :: p in profiles ==> '\n' !in p && p in issued && WellFormedSection(issued[p])
    ensures WellFormed(after)
  {
    forall k | k in after
      ensures '\n' !in k && WellFormedSection(after[k])
    {
      if WrittenCredsName(k, profiles) {
        PrefixSplit(k, "mfa-");
        assert k == DerivedName(k[4..]);
        assert '\n' !in "mfa-";
      }
    }
  }

  /** The loop keeps both files writable as lines when the sessions and the
      profile names are. */
  lemma MergeKeepsWellFormed(config: IniFile, creds: IniFile, issued: map<string, Section>, profiles: seq<string>)
    requires Independent(profiles)
    requires MergeAll(config, creds, issued, profiles).Ok?
    requires WellFormed(config) && WellFormed(creds)
    requires forall p :: p in profiles ==> '\n' !in p && p in issued && WellFormedSection(issued[p])
    ensures var r := MergeAll(config, creds, issued, profiles).value;
      WellFormed(r.0) && WellFormed(r.1)
  {
    var r := MergeAll(config, creds, issued, profiles).value;
    MergeConfigEffect(config, creds, issued, profiles);
    MergeCredsEffect(config, creds, issued, profiles);
    ConfigMergedWellFormed(config, r.0, profiles);
    CredsMergedWellFormed(creds, r.1, issued, profiles);
  }

  /** A profile `work` whose configuration section is spelled
      `profile work`. The copy is written as `profile mfa-work`. */
  lemma WorkExample(region: Section, keys: Section, session: Section)
    ensures var r := MergeAll(map["profile work" := region], map["work" := keys], map["work" := session], ["work"]);
      r.Ok? &&
      r.value.0 == map["profile work" := region, "profile mfa-work" := region] &&
      r.value.1 == map["work" := keys, "mfa-work" := session]
  {
    var config, creds, issued := map["profile work" := region], map["work" := keys], map["work" := session];
    assert "work" !in config && "profile " + "work" == "profile work";
    assert Source(config, "work") == Some(region);
    assert DerivedConfigName("work") == "profile mfa-work" && DerivedName("work") == "mfa-work";
    var next := MergeStep(config, creds, issued, "work");
    assert next == Ok((config["profile mfa-work" := region], creds["mfa-work" := session]));
    assert ["work"][1..] == [];
  }

  // ---------------------------------------------------------------------
  // Writing the files back

  /** `if aws_config_profile and aws_creds_profile` (awsmfalogin.py:222-224):
      the texts written to the configuration and credentials files, or
      nothing when either model is empty. */
  function Persist(config: IniFile, creds: IniFile): (r: Option<(string, string)>)
    ensures r.Some? <==> config != map[] && creds != map[]
    ensures r.Some? ==> r.value.0 == Render(config) && r.value.1 == Render(creds)
  {
    if config != map[] && creds != map[] then Some((Render(config), Render(creds))) else None
  }

  /** After a successful merge of at least one profile both files are
      written, and reading them back gives the merged models. */
  lemma MergeThenPersist(config: IniFile, creds: IniFile, issued: map<string, Section>, profiles: seq<string>)
    requires Independent(profiles) && profiles != []
    requires MergeAll(config, creds, issued, profiles).Ok?
    requires WellFormed(config) && WellFormed(creds)
    requires forall p :: p in profiles ==> '\n' !in p && p in issued && WellFormedSection(issued[p])
    ensures var r := MergeAll(config, creds, issued, profiles).value;
      Persist(r.0, r.1).Some? &&
      Parse(ReadLines(Persist(r.0, r.1).value.0)) == Ok(r.0) &&
      Parse(ReadLines(Persist(r.0, r.1).value.1)) == Ok(r.1)
  {
    var r := MergeAll(config, creds, issued, profiles).value;
    MergeConfigEffect(config, creds, issued, profiles);
    MergeCredsEffect(config, creds, issued, profiles);
    MergeKeepsWellFormed(config, creds, issued, profiles);
    var p := profiles[0];
    assert DerivedConfigName(p) in r.0;
    assert DerivedName(p) in r.1;
    RoundTrip.RoundTrip(r.0);
    RoundTrip.RoundTrip(r.1);
  }
}
