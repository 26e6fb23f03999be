/** The environment variables and the configuration paths they override. */
module EnvMap {
  import opened Text
  import opened ConfigTree

  datatype EnvEntry = EnvEntry(name: string, path: Path)

  // The entries of each section, with paths relative to it.

  const UNIQLO: seq<EnvEntry> := [
    EnvEntry("UNIQLO_COUNTRY", ["country"]),
    EnvEntry("UNIQLO_CHECK_INTERVAL", ["check_interval_minutes"]),
    EnvEntry("SCHEDULED_CHECKS", ["scheduled_checks"]),
    EnvEntry("UNIQLO_SALE_PATHS", ["sale_paths"])
  ]

  const FILTERS: seq<EnvEntry> := [
    EnvEntry("FILTER_GENDER", ["gender"]),
    EnvEntry("FILTER_MIN_SALE_PERCENTAGE", ["min_sale_percentage"]),
    EnvEntry("FILTER_SIZES_CLOTHING", ["sizes", "clothing"]),
    EnvEntry("FILTER_SIZES_PANTS", ["sizes", "pants"]),
    EnvEntry("FILTER_SIZES_SHOES", ["sizes", "shoes"]),
    EnvEntry("FILTER_SIZES_ONE_SIZE", ["sizes", "one_size"]),
    EnvEntry("FILTER_WATCHED_URLS", ["watched_urls"]),
    EnvEntry("FILTER_IGNORED_IDS", ["ignored_products"]),
    EnvEntry("FILTER_IGNORED_KEYWORDS", ["ignored_keywords"])
  ]

  const SERVER: seq<EnvEntry> := [
    EnvEntry("SERVER_URL", ["server_url"]),
    EnvEntry("PORT", ["port"]),
    EnvEntry("STORE_COUNTRY", ["store_country"]),
    EnvEntry("UI_LANGUAGE", ["ui_language"]),
    EnvEntry("DEEP_DISCOUNT_THRESHOLD", ["deep_discount_threshold"])
  ]

  const NOTIFICATIONS: seq<EnvEntry> := [
    EnvEntry("NOTIFY_ON", ["notify_on"]),
    EnvEntry("NOTIFICATIONS_APPRISE_URLS", ["apprise_urls"]),
    EnvEntry("CHECK_ON_STARTUP", ["check_on_startup"]),
    EnvEntry("PREVIEW_CLI", ["preview_cli"]),
    EnvEntry("PREVIEW_HTML", ["preview_html"]),
    EnvEntry("NOTIFY_LOW_STOCK_THRESHOLD", ["low_stock_threshold"]),
    EnvEntry("NOTIFY_SUPPRESS_LOW_STOCK_ALERTS", ["suppress_low_stock_alerts"])
  ]

  const TELEGRAM: seq<EnvEntry> := [
    EnvEntry("TELEGRAM_ENABLED", ["enabled"]),
    EnvEntry("TELEGRAM_BOT_TOKEN", ["bot_token"]),
    EnvEntry("TELEGRAM_CHAT_ID", ["chat_id"])
  ]

  const QUIET_HOURS: seq<EnvEntry> := [
    EnvEntry("QUIET_HOURS_ENABLED", ["enabled"]),
    EnvEntry("QUIET_HOURS_START", ["start"]),
    EnvEntry("QUIET_HOURS_END", ["end"])
  ]

  const EMAIL: seq<EnvEntry> := [
    EnvEntry("EMAIL_ENABLED", ["enabled"]),
    EnvEntry("SMTP_HOST", ["smtp_host"]),
    EnvEntry("SMTP_PORT", ["smtp_port"]),
    EnvEntry("SMTP_USE_TLS", ["use_tls"]),
    EnvEntry("SMTP_USER", ["smtp_user"]),
    EnvEntry("SMTP_PASSWORD", ["smtp_password"]),
    EnvEntry("SMTP_FROM", ["from_address"]),
    EnvEntry("SMTP_TO", ["to_addresses"])
  ]

  function In(section: Path, entries: seq<EnvEntry>): (r: seq<EnvEntry>)
    ensures |r| == |entries|
  {
    seq(|entries|, i requires 0 <= i < |entries| => EnvEntry(entries[i].name, section + entries[i].path))
  }

  const ENV_MAP: seq<EnvEntry> :=
    In(["uniqlo"], UNIQLO)
    + In(["filters"], FILTERS)
    + In([], SERVER)
    + In(["notifications"], NOTIFICATIONS)
    + In(["notifications", "channels", "telegram"], TELEGRAM)
    + In(["quiet_hours"], QUIET_HOURS)
    + In(["notifications", "channels", "email"], EMAIL)

  // A tree with every variable's name at the leaf that it overrides: a witness
  // that no path of the map runs through another one.

  const UNIQLO_TREE: Tree := Dict(map[
    "country" := Leaf(Str("UNIQLO_COUNTRY")),
    "check_interval_minutes" := Leaf(Str("UNIQLO_CHECK_INTERVAL")),
    "scheduled_checks" := Leaf(Str("SCHEDULED_CHECKS")),
    "sale_paths" := Leaf(Str("UNIQLO_SALE_PATHS"))])

  const FILTERS_TREE: Tree := Dict(map[
    "gender" := Leaf(Str("FILTER_GENDER")),
    "min_sale_percentage" := Leaf(Str("FILTER_MIN_SALE_PERCENTAGE")),
    "sizes" := Dict(map[
      "clothing" := Leaf(Str("FILTER_SIZES_CLOTHING")),
      "pants" := Leaf(Str("FILTER_SIZES_PANTS")),
      "shoes" := Leaf(Str("FILTER_SIZES_SHOES")),
      "one_size" := Leaf(Str("FILTER_SIZES_ONE_SIZE"))]),
    "watched_urls" := Leaf(Str("FILTER_WATCHED_URLS")),
    "ignored_products" := Leaf(Str("FILTER_IGNORED_IDS")),
    "ignored_keywords" := Leaf(Str("FILTER_IGNORED_KEYWORDS"))])

  const NOTIFICATIONS_TREE: Tree := Dict(map[
    "notify_on" := Leaf(Str("NOTIFY_ON")),
    "apprise_urls" := Leaf(Str("NOTIFICATIONS_APPRISE_URLS")),
    "check_on_startup" := Leaf(Str("CHECK_ON_STARTUP")),
    "preview_cli" := Leaf(Str("PREVIEW_CLI")),
    "preview_html" := Leaf(Str("PREVIEW_HTML")),
    "low_stock_threshold" := Leaf(Str("NOTIFY_LOW_STOCK_THRESHOLD")),
    "suppress_low_stock_alerts" := Leaf(Str("NOTIFY_SUPPRESS_LOW_STOCK_ALERTS")),
    "channels" := CHANNELS_TREE])

  const TELEGRAM_TREE: Tree := Dict(map[
    "enabled" := Leaf(Str("TELEGRAM_ENABLED")),
    "bot_token" := Leaf(Str("TELEGRAM_BOT_TOKEN")),
    "chat_id" := Leaf(Str("TELEGRAM_CHAT_ID"))])

  const QUIET_HOURS_TREE: Tree := Dict(map[
    "enabled" := Leaf(Str("QUIET_HOURS_ENABLED")),
    "start" := Leaf(Str("QUIET_HOURS_START")),
    "end" := Leaf(Str("QUIET_HOURS_END"))])

  const EMAIL_TREE: Tree := Dict(map[
    "enabled" := Leaf(Str("EMAIL_ENABLED")),
    "smtp_host" := Leaf(Str("SMTP_HOST")),
    "smtp_port" := Leaf(Str("SMTP_PORT")),
    "use_tls" := Leaf(Str("SMTP_USE_TLS")),
    "smtp_user" := Leaf(Str("SMTP_USER")),
    "smtp_password" := Leaf(Str("SMTP_PASSWORD")),
    "from_address" := Leaf(Str("SMTP_FROM")),
    "to_addresses" := Leaf(Str("SMTP_TO"))])

  const CHANNELS_TREE: Tree := Dict(map["telegram" := TELEGRAM_TREE, "email" := EMAIL_TREE])

  const SCHEMA: Tree := Dict(map[
    "uniqlo" := UNIQLO_TREE,
    "filters" := FILTERS_TREE,
    "notifications" := NOTIFICATIONS_TREE,
    "quiet_hours" := QUIET_HOURS_TREE,
    "server_url" := Leaf(Str("SERVER_URL")),
    "port" := Leaf(Str("PORT")),
    "store_country" := Leaf(Str("STORE_COUNTRY")),
    "ui_language" := Leaf(Str("UI_LANGUAGE")),
    "deep_discount_threshold" := Leaf(Str("DEEP_DISCOUNT_THRESHOLD"))])

  /** Every entry finds its own name in the tree. */
  predicate Finds(t: Tree, entries: seq<EnvEntry>) {
    forall i :: 0 <= i < |entries| ==> Lookup(t, entries[i].path) == Some(Leaf(Str(entries[i].name)))
  }

  lemma UniqloFinds()
    ensures Finds(UNIQLO_TREE, UNIQLO)
  {
  }

  lemma FiltersFinds()
    ensures Finds(FILTERS_TREE, FILTERS)
  {
  }

  lemma ServerFinds()
    ensures Finds(SCHEMA, SERVER)
  {
  }

  lemma NotificationsFinds()
    ensures Finds(NOTIFICATIONS_TREE, NOTIFICATIONS)
  {
  }

  lemma TelegramFinds()
    ensures Finds(TELEGRAM_TREE, TELEGRAM)
  {
  }

  lemma QuietHoursFinds()
    ensures Finds(QUIET_HOURS_TREE, QUIET_HOURS)
  {
  }

  lemma EmailFinds()
    ensures Finds(EMAIL_TREE, EMAIL)
  {
  }

  lemma {:induction false} LookupUnder(t: Tree, section: Path, rest: Path)
    requires Lookup(t, section).Some?
    ensures Lookup(t, section + rest) == Lookup(Lookup(t, section).value, rest)
    decreases section
  {
    if section == [] {
      assert section + rest == rest;
    } else {
      LookupUnder(t.entries[section[0]], section[1..], rest);
      assert (section + rest)[1..] == section[1..] + rest;
    }
  }

  lemma FindsUnder(section: Path, t: Tree, entries: seq<EnvEntry>)
    requires Lookup(SCHEMA, section) == Some(t) && Finds(t, entries)
    ensures Finds(SCHEMA, In(section, entries))
  {
    forall i | 0 <= i < |entries|
      ensures Lookup(SCHEMA, In(section, entries)[i].path) == Some(Leaf(Str(In(section, entries)[i].name)))
    {
      LookupUnder(SCHEMA, section, entries[i].path);
    }
  }

  lemma Sections()
    ensures Lookup(SCHEMA, ["uniqlo"]) == Some(UNIQLO_TREE)
    ensures Lookup(SCHEMA, ["filters"]) == Some(FILTERS_TREE)
    ensures Lookup(SCHEMA, []) == Some(SCHEMA)
    ensures Lookup(SCHEMA, ["notifications"]) == Some(NOTIFICATIONS_TREE)
    ensures Lookup(SCHEMA, ["quiet_hours"]) == Some(QUIET_HOURS_TREE)
  {
  }

  lemma ChannelSections()
    ensures Lookup(NOTIFICATIONS_TREE, ["channels"]) == Some(CHANNELS_TREE)
    ensures Lookup(CHANNELS_TREE, ["telegram"]) == Some(TELEGRAM_TREE)
    ensures Lookup(CHANNELS_TREE, ["email"]) == Some(EMAIL_TREE)
  {
  }

  lemma ChannelLookup(channel: string)
    requires Lookup(CHANNELS_TREE, [channel]).Some?
    ensures Lookup(SCHEMA, ["notifications", "channels", channel]) == Lookup(CHANNELS_TREE, [channel])
  {
    Sections();
    ChannelSections();
    assert ["channels"] + [channel] == ["channels", channel];
    LookupUnder(NOTIFICATIONS_TREE, ["channels"], [channel]);
    assert ["notifications"] + ["channels", channel] == ["notifications", "channels", channel];
    LookupUnder(SCHEMA, ["notifications"], ["channels", channel]);
  }

  /** The tree has every variable of the map at its path. */
  lemma MapFinds()
    ensures Finds(SCHEMA, ENV_MAP)
  {
    Sections();
    ChannelSections();
    ChannelLookup("telegram");
    ChannelLookup("email");
    UniqloFinds();
    FindsUnder(["uniqlo"], UNIQLO_TREE, UNIQLO);
    FiltersFinds();
    FindsUnder(["filters"], FILTERS_TREE, FILTERS);
    ServerFinds();
    FindsUnder([], SCHEMA, SERVER);
    NotificationsFinds();
    FindsUnder(["notifications"], NOTIFICATIONS_TREE, NOTIFICATIONS);
    TelegramFinds();
    FindsUnder(["notifications", "channels", "telegram"], TELEGRAM_TREE, TELEGRAM);
    QuietHoursFinds();
    FindsUnder(["quiet_hours"], QUIET_HOURS_TREE, QUIET_HOURS);
    EmailFinds();
    FindsUnder(["notifications", "channels", "email"], EMAIL_TREE, EMAIL);
  }

  lemma {:induction false} NothingBelowALeaf(t: Tree, p: Path, q: Path)
    requires p <= q && ShapeAt(t, p).Holds? && Lookup(t, q).Some?
    ensures p == q
    decreases p
  {
    if p != [] {
      assert p[0] == q[0];
      NothingBelowALeaf(t.entries[p[0]], p[1..], q[1..]);
      assert p == [p[0]] + p[1..] && q == [q[0]] + q[1..];
    }
  }

  /** The map is prefix-free: comparable paths belong to one variable. */
  lemma EnvMapIsPrefixFree(t: Tree, entries: seq<EnvEntry>, i: nat, j: nat)
    requires Finds(t, entries) && i < |entries| && j < |entries| && entries[i].path <= entries[j].path
    ensures entries[i] == entries[j]
  {
    NothingBelowALeaf(t, entries[i].path, entries[j].path);
  }

  // ----------------------------------------------- reading the environment

  /** The assignments of the variables that are set, in the map's order. */
  function Overrides(entries: seq<EnvEntry>, env: map<string, Scalar>): seq<Assignment> {
    if entries == [] then []
    else
      var e := entries[|entries| - 1];
      Overrides(entries[..|entries| - 1], env) + if e.name in env then [Assignment(e.path, env[e.name])] else []
  }

  lemma {:induction false} OverridesMembers(entries: seq<EnvEntry>, env: map<string, Scalar>)
    ensures forall x :: x in Overrides(entries, env) <==>
              exists i :: 0 <= i < |entries| && entries[i].name in env
                          && x == Assignment(entries[i].path, env[entries[i].name])
  {
    if entries != [] {
      OverridesMembers(entries[..|entries| - 1], env);
    }
  }

  lemma OverridesArePrefixFree(t: Tree, entries: seq<EnvEntry>, env: map<string, Scalar>)
    requires Finds(t, entries) && t.Dict?
    ensures PrefixFree(Overrides(entries, env))
  {
    var all := Overrides(entries, env);
    OverridesMembers(entries, env);
    forall x | x in all ensures x.path != [] {
      var i :| 0 <= i < |entries| && entries[i].name in env && x == Assignment(entries[i].path, env[entries[i].name]);
      assert Lookup(t, []) == Some(t);
    }
    forall x, y | x in all && y in all && x.path <= y.path ensures x == y {
      var i :| 0 <= i < |entries| && entries[i].name in env && x == Assignment(entries[i].path, env[entries[i].name]);
      var j :| 0 <= j < |entries| && entries[j].name in env && y == Assignment(entries[j].path, env[entries[j].name]);
      EnvMapIsPrefixFree(t, entries, i, j);
    }
  }

  /** `_config_from_env` on coerced values, over a map that some tree finds: it
      never assigns through a value. */
  method ConfigFromEntries(ghost t: Tree, entries: seq<EnvEntry>, env: map<string, Scalar>) returns (config: Tree)
    requires t.Dict? && Finds(t, entries)
    ensures PrefixFree(Overrides(entries, env)) && Assigned(Overrides(entries, env)) == Some(config)
  {
    config := Dict(map[]);
    var n := 0;
    while n < |entries|
      invariant 0 <= n <= |entries|
      invariant PrefixFree(Overrides(entries[..n], env)) && Assigned(Overrides(entries[..n], env)) == Some(config)
    {
      var e := entries[n];
      assert Finds(t, entries[..n + 1]);
      assert entries[..n + 1][..n] == entries[..n];
      OverridesArePrefixFree(t, entries[..n + 1], env);
      AssignedShapes(Overrides(entries[..n + 1], env), []);
      if e.name in env {
        var before := Overrides(entries[..n], env);
        var all := before + [Assignment(e.path, env[e.name])];
        assert all[..|all| - 1] == before;
        assert Overrides(entries[..n + 1], env) == all;
        assert Assigned(all) == SetNested(config, e.path, env[e.name]);
        config := SetNested(config, e.path, env[e.name]).value;
      } else {
        assert Overrides(entries[..n + 1], env) == Overrides(entries[..n], env);
      }
      n := n + 1;
    }
    assert entries[..n] == entries;
    OverridesArePrefixFree(t, entries, env);
  }

  method ConfigFromEnv(env: map<string, Scalar>) returns (config: Tree)
    ensures PrefixFree(Overrides(ENV_MAP, env)) && Assigned(Overrides(ENV_MAP, env)) == Some(config)
  {
    MapFinds();
    config := ConfigFromEntries(SCHEMA, ENV_MAP, env);
  }

  /** The environment override law for a whole configuration file: every
      variable that is set decides its path, nothing incomparable changes, the
      order of the map does not matter, and a second merge changes nothing. */
  lemma EnvironmentOverrides(file: Tree, env: map<string, Scalar>, order: seq<Assignment>)
    requires file.Dict? && forall x :: x in order <==> x in Overrides(ENV_MAP, env)
    ensures PrefixFree(order) && Assigned(order).Some? && Assigned(order) == Assigned(Overrides(ENV_MAP, env))
    ensures var over := Assigned(order).value;
            var merged := Merge(file, over);
            && (forall i :: 0 <= i < |ENV_MAP| && ENV_MAP[i].name in env ==>
                  Lookup(merged, ENV_MAP[i].path) == Some(Leaf(env[ENV_MAP[i].name])))
            && (forall q :: q != [] && (forall x :: x in order ==> !Comparable(q, x.path)) ==>
                  Lookup(merged, q) == Lookup(file, q))
            && Merge(merged, over) == merged
  {
    MapFinds();
    OverridesArePrefixFree(SCHEMA, ENV_MAP, env);
    OverridesMembers(ENV_MAP, env);
    OrderDoesNotMatter(order, Overrides(ENV_MAP, env));
    OverrideLaw(file, order);
    var merged := Merge(file, Assigned(order).value);
    forall i | 0 <= i < |ENV_MAP| && ENV_MAP[i].name in env
      ensures Lookup(merged, ENV_MAP[i].path) == Some(Leaf(env[ENV_MAP[i].name]))
    {
      var x := Assignment(ENV_MAP[i].path, env[ENV_MAP[i].name]);
      assert x in order;
    }
  }
}
