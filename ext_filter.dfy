/**
 * The two extension predicates of index.ts. Both look at the extension of
 * a path as `path.extname(name).substring(1)` gives it, and both treat an
 * empty list as "no restriction".
 */
module ExtFilter {
  import opened Paths

  /** `path.extname(name).substring(1)`: the extension without its leading dot. */
  function ExtOf(name: string): (e: string)
    ensures '.' !in e && '/' !in e
  {
    var x := Extname(name);
    if x == [] then [] else x[1..]
  }

  /** `checkExtAllowed`: kept when the extension is listed, or when the list is empty. */
  predicate CheckExtAllowed(name: string, extensions: seq<string>)
  {
    ExtOf(name) in extensions || |extensions| == 0
  }

  /** `checkExtDisallowed`: kept when the extension is not listed, or when the list is empty. */
  predicate CheckExtDisallowed(name: string, extensions: seq<string>)
  {
    ExtOf(name) !in extensions || |extensions| == 0
  }

  /** A file passes the walk's filter when it is allowed and not disallowed. */
  predicate Keep(name: string, allowed: seq<string>, disallowed: seq<string>)
  {
    CheckExtAllowed(name, allowed) && CheckExtDisallowed(name, disallowed)
  }

  /** The extension of `base.e` is `e`, for a non-empty entry name `base` and an `e` without a dot. */
  lemma ExtOfDotted(base: string, e: string)
    requires base != [] && '/' !in base && '/' !in e && '.' !in e
    ensures ExtOf(base + "." + e) == e
  {
    ExtnameOfDotted(base, e);
  }

  /** The extension of a resolved entry path is that of the entry name. */
  lemma ExtOfResolve(dir: string, name: string)
    requires name != [] && '/' !in name
    ensures ExtOf(Resolve(dir, name)) == ExtOf(name)
  {
    ExtnameOfResolve(dir, name);
  }

  /** A name whose last segment has no dot has the empty extension. */
  lemma ExtOfUndotted(name: string)
    requires '.' !in LastSegment(StripTrailingSlashes(name))
    ensures ExtOf(name) == ""
  {
    NoDotNoExtname(name);
  }

  /** With an allowed list, a name passes exactly when its extension is listed; an empty list passes every name. */
  lemma AllowedIff(name: string, extensions: seq<string>)
    ensures extensions == [] ==> CheckExtAllowed(name, extensions)
    ensures extensions != [] ==> (CheckExtAllowed(name, extensions) <==> ExtOf(name) in extensions)
  {
  }

  /** With a disallowed list, a name passes exactly when its extension is not listed; an empty list passes every name. */
  lemma DisallowedIff(name: string, extensions: seq<string>)
    ensures extensions == [] ==> CheckExtDisallowed(name, extensions)
    ensures extensions != [] ==> (CheckExtDisallowed(name, extensions) <==> ExtOf(name) !in extensions)
  {
  }

  /** An extension on both lists is always excluded. */
  lemma BothListsExclude(name: string, allowed: seq<string>, disallowed: seq<string>)
    requires ExtOf(name) in allowed && ExtOf(name) in disallowed
    ensures !Keep(name, allowed, disallowed)
  {
  }

  /** A list entry with a dot (such as `.txt`) never matches: extensions are compared without their dot. */
  lemma DottedEntryNeverMatches(name: string, entry: string)
    requires '.' in entry
    ensures ExtOf(name) != entry
  {
  }

  /** `base.e`, resolved in any directory, is kept by `--ext e` and dropped by `--notext e`. */
  lemma DottedNameFilters(dir: string, base: string, e: string)
    requires base != [] && '/' !in base && '/' !in e && '.' !in e
    ensures CheckExtAllowed(Resolve(dir, base + "." + e), [e])
    ensures !CheckExtDisallowed(Resolve(dir, base + "." + e), [e])
  {
    var name := base + "." + e;
    assert '/' !in name by {
      assert name == base + ['.'] + e;
    }
    ExtOfResolve(dir, name);
    ExtOfDotted(base, e);
  }

  /** A dot file such as `.env` has the empty extension. */
  lemma ExtOfLeadingDot(e: string)
    requires '/' !in e && '.' !in e
    ensures ExtOf("." + e) == ""
  {
    LeadingDotNoExtname(e);
  }

  /** So `--notext env` keeps `.env` and `--ext env` drops it. */
  lemma DotFileFilters(e: string)
    requires e != [] && '/' !in e && '.' !in e
    ensures CheckExtDisallowed("." + e, [e]) && !CheckExtAllowed("." + e, [e])
  {
    ExtOfLeadingDot(e);
    assert ExtOf("." + e) !in [e];
  }
}
