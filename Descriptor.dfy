/**
 * The job descriptor `do_POST` assembles: the passthrough variables copied
 * from the container's environment (in a fixed key order, IMAGE_PREFIX
 * extended by the configured suffix), and the `KEY=VALUE` lines written to the
 * request file. The partner of the assembly is a reader of those lines, and
 * the descriptor is proved to read back as exactly the assignments intended.
 */
module Descriptor {
  import opened Wrappers
  import opened Text
  import opened Escape
  import opened ImagePrefix

  /** The process environment, `os.getenv`. */
  type Env = map<string, string>

  /** An insertion-ordered dictionary from names to values, such as `existing`. */
  type Pairs = seq<(string, string)>

  /** The variables forwarded to the backup OS, in the order they are written. */
  const PassthroughKeys: seq<string> := [
    "IMAGE_PREFIX", "RETENTION_COUNT", "BACKUP_DIR", "CIFS_SHARE", "CIFS_USER",
    "CIFS_DOMAIN", "CIFS_PASS", "CIFS_UID", "CIFS_GID", "GOTIFY_URL",
    "GOTIFY_TOKEN", "GOTIFY_ENABLED", "MQTT_ENABLED", "MQTT_HOST", "MQTT_PORT",
    "MQTT_USER", "MQTT_PASS", "MQTT_TLS", "MQTT_DISCOVERY_PREFIX", "MQTT_TOPIC_PREFIX",
    "BACKUP_SRC_HINT"]

  /**
   * What the collecting loop has gathered after visiting `keys`: the set
   * variables, in visiting order; every entry is a set variable with its value.
   */
  function Passthrough(env: Env, keys: seq<string>): (r: Pairs)
    ensures |r| <= |keys|
    ensures forall i :: 0 <= i < |r| ==> r[i].0 in env && r[i].1 == env[r[i].0]
  {
    if keys == [] then []
    else
      var k := keys[|keys| - 1];
      var init := Passthrough(env, keys[..|keys| - 1]);
      if k in env then init + [(k, env[k])] else init
  }

  /** The keys of `keys` that are set in the environment, in order (the reference for `Passthrough`). */
  function PresentKeys(env: Env, keys: seq<string>): seq<string> {
    if keys == [] then []
    else (if keys[0] in env then [keys[0]] else []) + PresentKeys(env, keys[1..])
  }

  /** The names of a dictionary, in insertion order. */
  function Keys(ps: Pairs): seq<string> {
    if ps == [] then [] else Keys(ps[..|ps| - 1]) + [ps[|ps| - 1].0]
  }

  /** `ps.get(k)`. */
  function Lookup(ps: Pairs, k: string): Option<string> {
    if ps == [] then None
    else if ps[|ps| - 1].0 == k then Some(ps[|ps| - 1].1)
    else Lookup(ps[..|ps| - 1], k)
  }

  /** `ps[k] = v` for a name already present: the value changes, no name moves, and other names keep their values. */
  function SetValue(ps: Pairs, k: string, v: string): (r: Pairs)
    ensures |r| == |ps|
    ensures forall i :: 0 <= i < |ps| ==> r[i].0 == ps[i].0 && (ps[i].0 != k ==> r[i].1 == ps[i].1)
  {
    if ps == [] then []
    else if ps[|ps| - 1].0 == k then ps[..|ps| - 1] + [(k, v)]
    else SetValue(ps[..|ps| - 1], k, v) + [ps[|ps| - 1]]
  }

  /** The IMAGE_PREFIX rewrite: a non-blank prefix gets the suffix appended; every name stays in place and every other value stays. */
  function WithEffectivePrefix(existing: Pairs, suffix: string): (r: Pairs)
    ensures |r| == |existing|
    ensures forall i :: 0 <= i < |r| ==>
              r[i].0 == existing[i].0 && (existing[i].0 != "IMAGE_PREFIX" ==> r[i].1 == existing[i].1)
  {
    match Lookup(existing, "IMAGE_PREFIX")
    case Some(v) =>
      if Strip(v) != [] then SetValue(existing, "IMAGE_PREFIX", AppendPrefixSuffix(v, suffix)) else existing
    case None => existing
  }

  /**
   * The `existing` dictionary once it is complete: at most one entry per
   * passthrough name, each a set variable, and each value other than
   * IMAGE_PREFIX copied from the environment.
   */
  function Existing(env: Env, suffix: string): (r: Pairs)
    ensures |r| <= |PassthroughKeys|
    ensures forall i :: 0 <= i < |r| ==> r[i].0 in env && (r[i].0 != "IMAGE_PREFIX" ==> r[i].1 == env[r[i].0])
  {
    WithEffectivePrefix(Passthrough(env, PassthroughKeys), suffix)
  }

  /** The loop over the passthrough keys followed by the in-place IMAGE_PREFIX rewrite. */
  method CollectExisting(env: Env, suffix: string) returns (existing: Pairs)
    ensures existing == Existing(env, suffix)
  {
    existing := [];
    var i := 0;
    while i < |PassthroughKeys|
      invariant 0 <= i <= |PassthroughKeys|
      invariant existing == Passthrough(env, PassthroughKeys[..i])
    {
      var key := PassthroughKeys[i];
      assert PassthroughKeys[..i + 1][..i] == PassthroughKeys[..i];
      if key in env {
        existing := existing + [(key, env[key])];
      }
      i := i + 1;
    }
    assert PassthroughKeys[..i] == PassthroughKeys;
    var current := Lookup(existing, "IMAGE_PREFIX");
    if current.Some? && Strip(current.value) != [] {
      existing := SetValue(existing, "IMAGE_PREFIX", AppendPrefixSuffix(current.value, suffix));
    }
  }

  /** A double-quoted assignment `K="escaped value"`. */
  function Quoted(k: string, v: string): string {
    k + "=\"" + ShellEscape(v) + "\""
  }

  /** An unquoted assignment `K=value`. */
  function Unquoted(k: string, v: string): string {
    k + "=" + v
  }

  /** The unquoted booleans `true` and `false`. */
  function Flag(b: bool): string {
    if b then "true" else "false"
  }

  /** One quoted line per entry of the dictionary, in its order. */
  function QuotedLines(ps: Pairs): (r: seq<string>)
    ensures |r| == |ps|
    ensures forall i :: 0 <= i < |ps| ==> r[i] == Quoted(ps[i].0, ps[i].1)
  {
    if ps == [] then []
    else QuotedLines(ps[..|ps| - 1]) + [Quoted(ps[|ps| - 1].0, ps[|ps| - 1].1)]
  }

  /**
   * The lines before the passthrough variables: MODE, HEALTH_CHECK, BOS_MAINTANCE
   * and the node name, which has a line only when one is configured.
   */
  function HeadLines(mode: string, bosMaintance: bool, nodeName: string): (r: seq<string>)
    ensures |r| == if nodeName != [] then 4 else 3
  {
    [Quoted("MODE", mode), Unquoted("HEALTH_CHECK", Flag(mode == "with-health")), Unquoted("BOS_MAINTANCE", Flag(bosMaintance))]
    + (if nodeName != [] then [Quoted("BACKUP_NODE_NAME", nodeName)] else [])
  }

  /** `env_lines` as `do_POST` leaves it: the head lines, then one quoted line per entry of `existing`, in order. */
  function DescriptorLines(mode: string, bosMaintance: bool, nodeName: string, existing: Pairs): (r: seq<string>)
    ensures var h := |HeadLines(mode, bosMaintance, nodeName)|;
            |r| == h + |existing| &&
            forall i :: 0 <= i < |existing| ==> r[h + i] == Quoted(existing[i].0, existing[i].1)
  {
    HeadLines(mode, bosMaintance, nodeName) + QuotedLines(existing)
  }

  /** The appends to `env_lines`. */
  method AssembleLines(mode: string, bosMaintance: bool, nodeName: string, existing: Pairs)
    returns (lines: seq<string>)
    ensures lines == DescriptorLines(mode, bosMaintance, nodeName, existing)
  {
    var modeLine := Quoted("MODE", mode);
    var healthLine := Unquoted("HEALTH_CHECK", Flag(mode == "with-health"));
    var maintanceLine := Unquoted("BOS_MAINTANCE", Flag(bosMaintance));
    lines := [];
    lines := lines + [modeLine];
    lines := lines + [healthLine];
    lines := lines + [maintanceLine];
    assert lines == [modeLine, healthLine, maintanceLine];
    if nodeName != [] {
      var nodeLine := Quoted("BACKUP_NODE_NAME", nodeName);
      lines := lines + [nodeLine];
      assert lines == [modeLine, healthLine, maintanceLine] + [nodeLine];
    } else {
      assert lines == [modeLine, healthLine, maintanceLine] + [];
    }
    ghost var head := lines;
    var i := 0;
    while i < |existing|
      invariant 0 <= i <= |existing|
      invariant lines == head + QuotedLines(existing[..i])
    {
      var line := Quoted(existing[i].0, existing[i].1);
      QuotedLinesSnoc(existing, i);
      AppendAssoc(head, QuotedLines(existing[..i]), line);
      lines := lines + [line];
      i := i + 1;
    }
    assert existing[..i] == existing;
  }

  lemma AppendAssoc(a: seq<string>, b: seq<string>, x: string)
    ensures (a + b) + [x] == a + (b + [x])
  {
  }

  lemma QuotedLinesSnoc(ps: Pairs, i: nat)
    requires i < |ps|
    ensures QuotedLines(ps[..i + 1]) == QuotedLines(ps[..i]) + [Quoted(ps[i].0, ps[i].1)]
  {
    assert ps[..i + 1][..i] == ps[..i];
  }

  // ---------------------------------------------------------------------------
  // Reading the lines back, as the backup OS does
  // ---------------------------------------------------------------------------

  /** Splits a line at its first `=`. */
  function SplitAssignment(line: string): Option<(string, string)> {
    if line == [] then None
    else if line[0] == '=' then Some(([], line[1..]))
    else match SplitAssignment(line[1..])
      case None => None
      case Some(p) => Some(([line[0]] + p.0, p.1))
  }

  /**
   * Reads `K=VALUE`: a value opening with a double quote must be a complete
   * quoted value (escapes `\\` and `\"`) with nothing after it, any other value
   * is taken literally.
   */
  function ReadAssignment(line: string): Option<(string, string)> {
    match SplitAssignment(line)
    case None => None
    case Some(p) =>
      if p.1 != [] && p.1[0] == '"' then
        match ReadQuoted(p.1[1..])
        case None => None
        case Some(q) => if q.1 == [] then Some((p.0, q.0)) else None
      else Some(p)
  }

  /** Reads every line; fails when one of them is not an assignment. */
  function ReadLines(lines: seq<string>): Option<Pairs> {
    if lines == [] then Some([])
    else
      match ReadLines(lines[..|lines| - 1])
      case None => None
      case Some(init) =>
        match ReadAssignment(lines[|lines| - 1])
        case None => None
        case Some(p) => Some(init + [p])
  }

  /** The assignments the descriptor is meant to convey. */
  function Assignments(mode: string, bosMaintance: bool, nodeName: string, existing: Pairs): Pairs {
    [("MODE", mode), ("HEALTH_CHECK", Flag(mode == "with-health")), ("BOS_MAINTANCE", Flag(bosMaintance))]
    + (if nodeName != [] then [("BACKUP_NODE_NAME", nodeName)] else [])
    + existing
  }

  predicate NamesPlain(ps: Pairs) {
    forall i :: 0 <= i < |ps| ==> '=' !in ps[i].0
  }

  // ---------------------------------------------------------------------------
  // Properties
  // ---------------------------------------------------------------------------

  /** The passthrough names contain no `=` and no duplicates, and IMAGE_PREFIX comes first. */
  lemma PassthroughKeysWellFormed()
    ensures forall i :: 0 <= i < |PassthroughKeys| ==> '=' !in PassthroughKeys[i]
    ensures forall i, j :: 0 <= i < j < |PassthroughKeys| ==> PassthroughKeys[i] != PassthroughKeys[j]
    ensures PassthroughKeys[0] == "IMAGE_PREFIX" && "BOS_UPDATE" !in PassthroughKeys
  {
    PassthroughKeysPlain();
    PassthroughKeysDistinct();
  }

  lemma PassthroughKeysPlain()
    ensures forall i :: 0 <= i < |PassthroughKeys| ==> '=' !in PassthroughKeys[i]
  {
  }

  lemma PassthroughKeysDistinct()
    ensures forall i, j :: 0 <= i < j < |PassthroughKeys| ==> PassthroughKeys[i] != PassthroughKeys[j]
  {
  }

  lemma {:induction false} PresentKeysSnoc(env: Env, keys: seq<string>, k: string)
    ensures PresentKeys(env, keys + [k]) == PresentKeys(env, keys) + (if k in env then [k] else [])
    decreases |keys|
  {
    if keys == [] {
      assert [k][1..] == [];
    } else {
      var rest := keys[1..];
      var head: seq<string> := if keys[0] in env then [keys[0]] else [];
      var tail: seq<string> := if k in env then [k] else [];
      assert (keys + [k])[0] == keys[0] && (keys + [k])[1..] == rest + [k];
      assert PresentKeys(env, keys + [k]) == head + PresentKeys(env, rest + [k]);
      PresentKeysSnoc(env, rest, k);
      assert head + (PresentKeys(env, rest) + tail) == (head + PresentKeys(env, rest)) + tail;
    }
  }

  /**
   * The collected dictionary holds exactly the variables that are set, in the
   * order of the key list, each with its value from the environment.
   */
  lemma {:induction false} PassthroughIsFilter(env: Env, keys: seq<string>)
    ensures Keys(Passthrough(env, keys)) == PresentKeys(env, keys)
    decreases |keys|
  {
    if keys != [] {
      var init, k := keys[..|keys| - 1], keys[|keys| - 1];
      assert keys == init + [k];
      PassthroughIsFilter(env, init);
      PresentKeysSnoc(env, init, k);
      var ps := Passthrough(env, init);
      if k in env {
        assert (ps + [(k, env[k])])[..|ps|] == ps;
      }
    }
  }

  /** Looking a name up in the collected dictionary is looking it up in the environment. */
  lemma {:induction false} LookupPassthrough(env: Env, keys: seq<string>, k: string)
    ensures Lookup(Passthrough(env, keys), k) == if k in keys && k in env then Some(env[k]) else None
    decreases |keys|
  {
    if keys != [] {
      var init, last := keys[..|keys| - 1], keys[|keys| - 1];
      assert keys == init + [last];
      LookupPassthrough(env, init, k);
      var ps := Passthrough(env, init);
      assert k in keys <==> k in init || k == last;
      if last in env {
        var extended := ps + [(last, env[last])];
        assert Passthrough(env, keys) == extended;
        assert extended[..|ps|] == ps;
        assert Lookup(extended, k) == if last == k then Some(env[last]) else Lookup(ps, k);
      } else {
        assert Passthrough(env, keys) == ps;
      }
    }
  }

  lemma {:induction false} SetValueKeepsKeys(ps: Pairs, k: string, v: string)
    ensures Keys(SetValue(ps, k, v)) == Keys(ps)
    decreases |ps|
  {
    if ps != [] {
      var init, last := ps[..|ps| - 1], ps[|ps| - 1];
      if last.0 == k {
        assert (init + [(k, v)])[..|init|] == init;
      } else {
        SetValueKeepsKeys(init, k, v);
        var s := SetValue(init, k, v);
        assert (s + [last])[..|s|] == s;
      }
    }
  }

  lemma {:induction false} LookupSetValue(ps: Pairs, k: string, v: string, q: string)
    requires Lookup(ps, k).Some?
    ensures Lookup(SetValue(ps, k, v), q) == if q == k then Some(v) else Lookup(ps, q)
    decreases |ps|
  {
    var init, last := ps[..|ps| - 1], ps[|ps| - 1];
    if last.0 == k {
      assert (init + [(k, v)])[..|init|] == init;
    } else {
      LookupSetValue(init, k, v, q);
      var s := SetValue(init, k, v);
      assert (s + [last])[..|s|] == s;
    }
  }

  /**
   * The finished dictionary: the same names in the same order as the
   * collected one; IMAGE_PREFIX, when set and not blank, extended by the
   * suffix; every other value as in the environment.
   */
  lemma ExistingContents(env: Env, suffix: string, k: string)
    ensures Keys(Existing(env, suffix)) == PresentKeys(env, PassthroughKeys)
    ensures Lookup(Existing(env, suffix), k) ==
              if k !in PassthroughKeys || k !in env then None
              else if k == "IMAGE_PREFIX" && Strip(env[k]) != [] then Some(AppendPrefixSuffix(env[k], suffix))
              else Some(env[k])
  {
    var ps := Passthrough(env, PassthroughKeys);
    PassthroughIsFilter(env, PassthroughKeys);
    LookupPassthrough(env, PassthroughKeys, k);
    LookupPassthrough(env, PassthroughKeys, "IMAGE_PREFIX");
    PassthroughKeysWellFormed();
    match Lookup(ps, "IMAGE_PREFIX")
    case Some(v) =>
      if Strip(v) != [] {
        SetValueKeepsKeys(ps, "IMAGE_PREFIX", AppendPrefixSuffix(v, suffix));
        LookupSetValue(ps, "IMAGE_PREFIX", AppendPrefixSuffix(v, suffix), k);
      }
    case None =>
  }

  lemma {:induction false} SplitQuoted(k: string, rest: string)
    requires '=' !in k
    ensures SplitAssignment(k + "=" + rest) == Some((k, rest))
    decreases |k|
  {
    if k == [] {
      assert k + "=" + rest == "=" + rest;
    } else {
      assert (k + "=" + rest)[1..] == k[1..] + "=" + rest;
      SplitQuoted(k[1..], rest);
      assert [k[0]] + k[1..] == k;
    }
  }

  /** A quoted line reads back as its name and the original, unescaped value. */
  lemma ReadQuotedLine(k: string, v: string)
    requires '=' !in k
    ensures ReadAssignment(Quoted(k, v)) == Some((k, v))
  {
    var rest := "\"" + ShellEscape(v) + "\"";
    assert Quoted(k, v) == k + "=" + rest;
    SplitQuoted(k, rest);
    assert rest[1..] == ShellEscape(v) + "\"" + "";
    ReadQuotedEscaped(v, "");
  }

  /** An unquoted flag line reads back as its name and `true` or `false`. */
  lemma ReadFlagLine(k: string, b: bool)
    requires '=' !in k
    ensures ReadAssignment(Unquoted(k, Flag(b))) == Some((k, Flag(b)))
  {
    SplitQuoted(k, Flag(b));
  }

  lemma {:induction false} ReadQuotedLines(head: seq<string>, heads: Pairs, ps: Pairs)
    requires ReadLines(head) == Some(heads) && NamesPlain(ps)
    ensures ReadLines(head + QuotedLines(ps)) == Some(heads + ps)
    decreases |ps|
  {
    if ps == [] {
      assert head + [] == head && heads + [] == heads;
    } else {
      var init, last := ps[..|ps| - 1], ps[|ps| - 1];
      assert ps == init + [last];
      assert NamesPlain(init) by {
        forall i | 0 <= i < |init| ensures '=' !in init[i].0 {
          assert init[i] == ps[i];
        }
      }
      ReadQuotedLines(head, heads, init);
      ReadQuotedLinesStep(head, heads, init, last);
    }
  }

  lemma ReadQuotedLinesStep(head: seq<string>, heads: Pairs, init: Pairs, last: (string, string))
    requires ReadLines(head + QuotedLines(init)) == Some(heads + init) && '=' !in last.0
    ensures ReadLines(head + QuotedLines(init + [last])) == Some(heads + (init + [last]))
  {
    var line := Quoted(last.0, last.1);
    ReadQuotedLine(last.0, last.1);
    ReadLinesSnoc(head + QuotedLines(init), line, heads + init, last);
    assert (init + [last])[..|init|] == init;
    assert QuotedLines(init + [last]) == QuotedLines(init) + [line];
    assert head + QuotedLines(init) + [line] == head + QuotedLines(init + [last]);
    assert heads + init + [last] == heads + (init + [last]);
  }

  lemma ReadHeadLines(mode: string, bosMaintance: bool, nodeName: string)
    ensures ReadLines(HeadLines(mode, bosMaintance, nodeName)) ==
              Some(Assignments(mode, bosMaintance, nodeName, []))
  {
    var l0, l1, l2 := Quoted("MODE", mode), Unquoted("HEALTH_CHECK", Flag(mode == "with-health")), Unquoted("BOS_MAINTANCE", Flag(bosMaintance));
    var p0, p1, p2 := ("MODE", mode), ("HEALTH_CHECK", Flag(mode == "with-health")), ("BOS_MAINTANCE", Flag(bosMaintance));
    ReadFixedHeadLines(mode, bosMaintance);
    if nodeName != [] {
      var l3, p3 := Quoted("BACKUP_NODE_NAME", nodeName), ("BACKUP_NODE_NAME", nodeName);
      ReadQuotedLine("BACKUP_NODE_NAME", nodeName);
      ReadLinesSnoc([l0, l1, l2], l3, [p0, p1, p2], p3);
      assert HeadLines(mode, bosMaintance, nodeName) == [l0, l1, l2] + [l3];
      assert Assignments(mode, bosMaintance, nodeName, []) == [p0, p1, p2] + [p3];
    } else {
      assert HeadLines(mode, bosMaintance, nodeName) == [l0, l1, l2];
      assert Assignments(mode, bosMaintance, nodeName, []) == [p0, p1, p2];
    }
  }

  /** The three lines every descriptor starts with read back as MODE, HEALTH_CHECK and BOS_MAINTANCE. */
  lemma ReadFixedHeadLines(mode: string, bosMaintance: bool)
    ensures var l0, l1, l2 := Quoted("MODE", mode), Unquoted("HEALTH_CHECK", Flag(mode == "with-health")), Unquoted("BOS_MAINTANCE", Flag(bosMaintance));
            var p0, p1, p2 := ("MODE", mode), ("HEALTH_CHECK", Flag(mode == "with-health")), ("BOS_MAINTANCE", Flag(bosMaintance));
            ReadLines([l0, l1, l2]) == Some([p0, p1, p2])
  {
    var l0, l1, l2 := Quoted("MODE", mode), Unquoted("HEALTH_CHECK", Flag(mode == "with-health")), Unquoted("BOS_MAINTANCE", Flag(bosMaintance));
    var p0, p1, p2 := ("MODE", mode), ("HEALTH_CHECK", Flag(mode == "with-health")), ("BOS_MAINTANCE", Flag(bosMaintance));
    ReadQuotedLine("MODE", mode);
    ReadFlagLine("HEALTH_CHECK", mode == "with-health");
    ReadFlagLine("BOS_MAINTANCE", bosMaintance);
    ReadThreeLines(l0, l1, l2, p0, p1, p2);
  }

  lemma ReadThreeLines(l0: string, l1: string, l2: string, p0: (string, string), p1: (string, string), p2: (string, string))
    requires ReadAssignment(l0) == Some(p0) && ReadAssignment(l1) == Some(p1) && ReadAssignment(l2) == Some(p2)
    ensures ReadLines([l0, l1, l2]) == Some([p0, p1, p2])
  {
    var s0: seq<string>, q0: Pairs := [], [];
    var s1, q1 := s0 + [l0], q0 + [p0];
    var s2, q2 := s1 + [l1], q1 + [p1];
    assert ReadLines(s0) == Some(q0);
    ReadLinesSnoc(s0, l0, q0, p0);
    ReadLinesSnoc(s1, l1, q1, p1);
    ReadLinesSnoc(s2, l2, q2, p2);
    assert s2 + [l2] == [l0, l1, l2];
    assert q2 + [p2] == [p0, p1, p2];
  }

  lemma ReadLinesSnoc(lines: seq<string>, line: string, ps: Pairs, p: (string, string))
    requires ReadLines(lines) == Some(ps) && ReadAssignment(line) == Some(p)
    ensures ReadLines(lines + [line]) == Some(ps + [p])
  {
    assert (lines + [line])[..|lines|] == lines;
  }

  /**
   * Round trip of the whole descriptor: reading its lines back yields MODE,
   * HEALTH_CHECK (`true` exactly for `with-health`), BOS_MAINTANCE, the node
   * name when one is configured, and then every passthrough variable with its
   * value unchanged by the escaping.
   */
  lemma DescriptorReadsBack(mode: string, bosMaintance: bool, nodeName: string, existing: Pairs)
    requires NamesPlain(existing)
    ensures ReadLines(DescriptorLines(mode, bosMaintance, nodeName, existing)) ==
              Some(Assignments(mode, bosMaintance, nodeName, existing))
  {
    ReadHeadLines(mode, bosMaintance, nodeName);
    ReadAfterHead(HeadLines(mode, bosMaintance, nodeName), Assignments(mode, bosMaintance, nodeName, []), existing,
                  DescriptorLines(mode, bosMaintance, nodeName, existing), Assignments(mode, bosMaintance, nodeName, existing));
  }

  lemma ReadAfterHead(head: seq<string>, heads: Pairs, existing: Pairs, lines: seq<string>, all: Pairs)
    requires ReadLines(head) == Some(heads) && NamesPlain(existing)
    requires lines == head + QuotedLines(existing) && all == heads + existing
    ensures ReadLines(lines) == Some(all)
  {
    ReadQuotedLines(head, heads, existing);
  }

  /** The names of the finished dictionary are passthrough names, hence plain. */
  lemma {:induction false} ExistingNamesPlain(env: Env, suffix: string)
    ensures NamesPlain(Existing(env, suffix))
  {
    ExistingContents(env, suffix, "");
    PassthroughKeysWellFormed();
    PresentKeysWithin(env, PassthroughKeys);
    KeysAt(Existing(env, suffix));
    forall k | k in PassthroughKeys
      ensures '=' !in k
    {
      var i :| 0 <= i < |PassthroughKeys| && PassthroughKeys[i] == k;
    }
  }

  lemma {:induction false} PresentKeysWithin(env: Env, keys: seq<string>)
    ensures forall k :: k in PresentKeys(env, keys) ==> k in keys
    decreases |keys|
  {
    if keys != [] {
      PresentKeysWithin(env, keys[1..]);
    }
  }

  /** No name occurs twice. */
  predicate Distinct(names: seq<string>) {
    forall i, j :: 0 <= i < j < |names| ==> names[i] != names[j]
  }

  /** Filtering a list of distinct names keeps them distinct. */
  lemma {:induction false} PresentKeysDistinct(env: Env, keys: seq<string>)
    requires Distinct(keys)
    ensures Distinct(PresentKeys(env, keys))
    decreases |keys|
  {
    if keys != [] {
      var rest := keys[1..];
      assert Distinct(rest) by {
        forall i, j | 0 <= i < j < |rest| ensures rest[i] != rest[j] {
          assert rest[i] == keys[i + 1] && rest[j] == keys[j + 1];
        }
      }
      PresentKeysDistinct(env, rest);
      PresentKeysWithin(env, rest);
      var tail := PresentKeys(env, rest);
      if keys[0] in env {
        assert keys[0] !in tail by {
          forall i | 0 <= i < |rest| ensures rest[i] != keys[0] {
            assert rest[i] == keys[i + 1];
          }
        }
        var all := [keys[0]] + tail;
        forall i, j | 0 <= i < j < |all| ensures all[i] != all[j] {
          assert all[j] == tail[j - 1];
          if i > 0 {
            assert all[i] == tail[i - 1];
          }
        }
      }
    }
  }

  /** Every name occurs at most once in the finished dictionary, as in a Python `dict`. */
  lemma ExistingNamesDistinct(env: Env, suffix: string)
    ensures Distinct(Keys(Existing(env, suffix)))
    ensures forall i, j :: 0 <= i < j < |Existing(env, suffix)| ==> Existing(env, suffix)[i].0 != Existing(env, suffix)[j].0
  {
    ExistingContents(env, suffix, "");
    PassthroughKeysDistinct();
    PresentKeysDistinct(env, PassthroughKeys);
    KeysAt(Existing(env, suffix));
  }

  lemma {:induction false} KeysAt(ps: Pairs)
    ensures |Keys(ps)| == |ps| && forall i :: 0 <= i < |ps| ==> Keys(ps)[i] == ps[i].0
    decreases |ps|
  {
    if ps != [] {
      KeysAt(ps[..|ps| - 1]);
    }
  }
}
