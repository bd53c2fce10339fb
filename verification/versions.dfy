/**
 * Resolving the requested version against the fetched catalog
 * (web/src/pages/Docs.tsx, lines 159-182) and the outdated-version banner
 * (lines 199-216). `ProjectRepository.getLatestVersion` is not part of this
 * model: it is the parameter `latest`, and only the lemmas that need it
 * assume that it picks an element of a non-empty list.
 */
module Versions {
  import opened Wrappers

  /** One entry of a project's version catalog: a version name and the tags attached to it. */
  datatype VersionDescriptor = VersionDescriptor(name: string, tags: seq<string>)

  /** The version token that stands for the newest version. */
  const LatestToken := "latest"

  /** `t` is the name or one of the tags of some catalog entry. */
  ghost predicate Known(catalog: seq<VersionDescriptor>, t: string) {
    exists i :: 0 <= i < |catalog| && (catalog[i].name == t || t in catalog[i].tags)
  }

  /** `getLatestVersion` returns an element of every non-empty list it is given. */
  ghost predicate LatestIsMember(latest: seq<VersionDescriptor> -> VersionDescriptor) {
    forall vs :: |vs| > 0 ==> latest(vs) in vs
  }

  /** `allVersions.map((v) => [v.name, ...v.tags]).flat()`: exactly the known names and tags. */
  function NamesAndTags(catalog: seq<VersionDescriptor>): (r: seq<string>)
    ensures forall t :: t in r <==> Known(catalog, t)
  {
    if |catalog| == 0 then []
    else
      var rest := NamesAndTags(catalog[1..]);
      assert forall t :: Known(catalog[1..], t) ==> Known(catalog, t) by {
        forall t | Known(catalog[1..], t)
          ensures Known(catalog, t)
        {
          var i :| 0 <= i < |catalog[1..]| && (catalog[1..][i].name == t || t in catalog[1..][i].tags);
          assert catalog[i + 1] == catalog[1..][i];
        }
      }
      assert forall t :: Known(catalog, t) ==> t == catalog[0].name || t in catalog[0].tags || Known(catalog[1..], t) by {
        forall t | Known(catalog, t) && t != catalog[0].name && t !in catalog[0].tags
          ensures Known(catalog[1..], t)
        {
          var i :| 0 <= i < |catalog| && (catalog[i].name == t || t in catalog[i].tags);
          assert i > 0;
          assert catalog[1..][i - 1] == catalog[i];
        }
      }
      [catalog[0].name] + catalog[0].tags + rest
  }

  /** Why resolution failed; the page shows the same not-found screen for both. */
  datatype ResolveError = EmptyVersionList | UnknownVersion

  /**
   * The version the page settles on: an empty catalog fails; `latest`
   * becomes the name of the entry `latest` picks; any other token succeeds
   * exactly when it is a known name or tag, and is then kept verbatim, not
   * replaced by the name of the entry that carries it.
   */
  function Resolve(catalog: seq<VersionDescriptor>, requested: string,
                   latest: seq<VersionDescriptor> -> VersionDescriptor): (r: Result<string, ResolveError>)
    ensures |catalog| == 0 <==> r == Failure(EmptyVersionList)
    ensures |catalog| > 0 && requested == LatestToken ==> r == Success(latest(catalog).name)
    ensures |catalog| > 0 && requested != LatestToken ==>
              (r.Success? <==> Known(catalog, requested)) && (r.Success? ==> r.value == requested)
    ensures r.Failure? && |catalog| > 0 ==> r.error == UnknownVersion
  {
    if |catalog| == 0 then Failure(EmptyVersionList)
    else if requested == LatestToken then Success(latest(catalog).name)
    else if requested in NamesAndTags(catalog) then Success(requested)
    else Failure(UnknownVersion)
  }

  /** Whatever resolution settles on is a name or tag of the catalog. */
  lemma ResolvedIsKnown(catalog: seq<VersionDescriptor>, requested: string,
                        latest: seq<VersionDescriptor> -> VersionDescriptor)
    requires LatestIsMember(latest)
    ensures Resolve(catalog, requested, latest).Success? ==>
              Known(catalog, Resolve(catalog, requested, latest).value)
  {
    if |catalog| > 0 && requested == LatestToken {
      var v := latest(catalog);
      assert v in catalog;
      var i :| 0 <= i < |catalog| && catalog[i] == v;
      assert catalog[i].name == v.name;
    }
  }

  /** The kind of a banner message. */
  datatype MessageType = Warning

  /** A banner message; `showMs == None` is the source's `null`: the message stays until dismissed. */
  datatype Message = Message(content: string, kind: MessageType, showMs: Option<nat>)

  const OutdatedText := "You are viewing an outdated version of the documentation."

  /**
   * The banner of lines 202-215: requested exactly when the catalog is
   * non-empty and the current version string is not the latest entry's
   * name, as a persistent warning.
   */
  function OutdatedBanner(versions: seq<VersionDescriptor>, version: string,
                          latest: seq<VersionDescriptor> -> VersionDescriptor): (m: Option<Message>)
    ensures m.Some? <==> |versions| > 0 && version != latest(versions).name
    ensures m.Some? ==> m.value.showMs.None? && m.value.kind == Warning && m.value.content == OutdatedText
  {
    if |versions| == 0 then None
    else if version == latest(versions).name then None
    else Some(Message(OutdatedText, Warning, None))
  }

  /**
   * After a successful resolution the banner fires exactly when the token
   * was neither `latest` nor the latest entry's name. In particular a tag
   * of the newest version, being kept verbatim, still raises the banner.
   */
  lemma BannerAfterResolve(catalog: seq<VersionDescriptor>, requested: string,
                           latest: seq<VersionDescriptor> -> VersionDescriptor)
    requires Resolve(catalog, requested, latest).Success?
    ensures var v := Resolve(catalog, requested, latest).value;
            OutdatedBanner(catalog, v, latest).Some?
            <==> requested != LatestToken && requested != latest(catalog).name
  {
  }
}
