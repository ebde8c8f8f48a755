/** The static game table: per-game metadata, the id-keyed lookup built from it,
    the store-platform variants with their serialised tags, and the mod loader
    enumeration with its string form. */
module Games {
  import opened Common

  datatype InstanceType = Game | Server

  /** The mod loader a game uses. */
  datatype PackageLoader =
    | BepInEx
    | MelonLoader
    | NorthStar
    | GodotML
    | AncientDungeonVR
    | ShimLoader
    | Lovely
    | ReturnOfModding
    | GDWeave

  /** Where a game can be bought, with the store's identifier for it where the
      store has one. The serialised form is internally tagged by `storePlatform`. */
  datatype StorePlatformMetadata =
    | Steam(storeIdentifier: string)
    | SteamDirect(storeIdentifier: string)
    | Epic(storeIdentifier: string)
    | Xbox(storeIdentifier: string)
    | Oculus
    | Origin
    | Other

  datatype GameInfo = GameInfo(
    id: string,
    name: string,
    thunderstoreUrl: string,
    steamFolderName: string,
    exeNames: seq<string>,
    dataFolderName: string,
    storePlatformMetadata: seq<StorePlatformMetadata>,
    instanceType: InstanceType,
    packageLoader: PackageLoader)

  // ---------------------------------------------------------------------------
  // The id-keyed index

  /** The set of ids that occur in `games`. */
  function Ids(games: seq<GameInfo>): set<string> {
    set g | g in games :: g.id
  }

  /** Collecting `(id, game)` pairs into a hash map: every id becomes a key,
      and when two games share an id the later one overwrites the earlier. */
  function ById(games: seq<GameInfo>): (m: map<string, GameInfo>)
    ensures m.Keys == Ids(games)
    ensures forall k | k in m :: m[k].id == k && m[k] in games
    decreases |games|
  {
    if games == [] then map[]
    else
      var init := games[..|games| - 1];
      var last := games[|games| - 1];
      assert games == init + [last];
      ById(init)[last.id := last]
  }

  /** When ids are unique, looking a game up by its own id gives that game back. */
  lemma {:induction false} ByIdFindsEachGame(games: seq<GameInfo>, i: nat)
    requires i < |games|
    requires forall a, b | 0 <= a < b < |games| :: games[a].id != games[b].id
    ensures games[i].id in ById(games)
    ensures ById(games)[games[i].id] == games[i]
    decreases |games|
  {
    var init := games[..|games| - 1];
    if i < |games| - 1 {
      ByIdFindsEachGame(init, i);
    }
  }

  /** With duplicate ids, the entry for an id is the LAST game carrying it. */
  lemma {:induction false} ByIdLastWins(games: seq<GameInfo>, i: nat)
    requires i < |games|
    requires forall j | i < j < |games| :: games[j].id != games[i].id
    ensures ById(games)[games[i].id] == games[i]
    decreases |games|
  {
    if i < |games| - 1 {
      ByIdLastWins(games[..|games| - 1], i);
    }
  }

  // ---------------------------------------------------------------------------
  // Store platforms

  /** The Steam app id, for the two Steam-backed variants only. */
  function SteamOrDirect(m: StorePlatformMetadata): (r: Option<string>)
    ensures r.Some? <==> m.Steam? || m.SteamDirect?
    ensures r.Some? ==> r.value == m.storeIdentifier
  {
    match m
    case Steam(id) => Some(id)
    case SteamDirect(id) => Some(id)
    case _ => None
  }

  /** The `storePlatform` tag a variant serialises to: its own name, which
      the deserialiser accepts, as a tag of an identified variant exactly
      when the variant carries an identifier. */
  function PlatformTag(m: StorePlatformMetadata): (r: string)
    ensures r in IdentifiedTags + UnitTags
    ensures r in IdentifiedTags <==> IdentifierField(m).Some?
  {
    match m
    case Steam(_) => "Steam"
    case SteamDirect(_) => "SteamDirect"
    case Epic(_) => "Epic"
    case Xbox(_) => "Xbox"
    case Oculus => "Oculus"
    case Origin => "Origin"
    case Other => "Other"
  }

  /** The identifier field a variant serialises, if it has one. */
  function IdentifierField(m: StorePlatformMetadata): Option<string> {
    if m.Steam? || m.SteamDirect? || m.Epic? || m.Xbox? then Some(m.storeIdentifier) else None
  }

  datatype MetadataError =
    | UnknownVariant(tag: string)
    | MissingStoreIdentifier

  /** The tags that select a variant carrying a store identifier. */
  const IdentifiedTags: set<string> :=
    {"Steam", "SteamDirect", "Epic", "Epic Games Store", "Xbox", "Xbox Game Pass"}

  /** The tags that select a unit variant. */
  const UnitTags: set<string> :=
    {"Oculus", "Oculus Store", "Origin", "Origin / EA Desktop", "Other"}

  /** Deserialising a `storePlatform`-tagged object: the tag picks the variant
      (by name or by alias). A variant carrying an identifier needs the
      identifier field; a variant without one is read by a visitor that
      skips any other field, so an identifier given with it is ignored. */
  function DeserializeMetadata(tag: string, identifier: Option<string>): (r: Result<StorePlatformMetadata, MetadataError>)
    ensures r.Ok? <==> tag in UnitTags || (tag in IdentifiedTags && identifier.Some?)
    ensures tag !in IdentifiedTags + UnitTags ==> r == Err(UnknownVariant(tag))
    ensures tag in IdentifiedTags && identifier.None? ==> r == Err(MissingStoreIdentifier)
    ensures r.Ok? && IdentifierField(r.value).Some? ==> IdentifierField(r.value) == identifier
    ensures r.Ok? ==> (IdentifierField(r.value).Some? <==> tag in IdentifiedTags)
    ensures r.Ok? ==> PlatformTag(r.value) == tag || (tag, PlatformTag(r.value)) in AliasPairs
  {
    if tag in IdentifiedTags then
      match identifier
      case None => Err(MissingStoreIdentifier)
      case Some(id) =>
        if tag == "Steam" then Ok(Steam(id))
        else if tag == "SteamDirect" then Ok(SteamDirect(id))
        else if tag == "Epic" || tag == "Epic Games Store" then Ok(Epic(id))
        else Ok(Xbox(id))
    else if tag in UnitTags then
      if tag == "Oculus" || tag == "Oculus Store" then Ok(Oculus)
      else if tag == "Origin" || tag == "Origin / EA Desktop" then Ok(Origin)
      else Ok(Other)
    else Err(UnknownVariant(tag))
  }

  /** A unit variant is read the same whether or not an identifier field
      comes with it. */
  lemma UnitVariantIgnoresIdentifier(tag: string, id: string)
    requires tag in UnitTags
    ensures DeserializeMetadata(tag, Some(id)) == DeserializeMetadata(tag, None)
    ensures DeserializeMetadata(tag, Some(id)).Ok?
  {
  }

  /** The accepted aliases, each paired with the variant name it stands for. */
  const AliasPairs: set<(string, string)> :=
    {("Epic Games Store", "Epic"), ("Xbox Game Pass", "Xbox"),
     ("Oculus Store", "Oculus"), ("Origin / EA Desktop", "Origin")}

  /** An alias selects the same variant as the name it stands for. */
  lemma AliasesAgreeWithNames(identifier: Option<string>)
    ensures forall p | p in AliasPairs ::
      DeserializeMetadata(p.0, identifier) == DeserializeMetadata(p.1, identifier)
  {
  }

  /** Serialising then deserialising a variant gives it back. */
  lemma MetadataRoundTrip(m: StorePlatformMetadata)
    ensures DeserializeMetadata(PlatformTag(m), IdentifierField(m)) == Ok(m)
  {
  }

  // ---------------------------------------------------------------------------
  // Package loaders

  /** The loader's name as a string: the variant's own name, an identifier
      made of ASCII letters that starts with a capital. */
  function LoaderName(l: PackageLoader): (r: string)
    ensures |r| > 0 && 'A' <= r[0] <= 'Z'
    ensures forall i | 0 <= i < |r| :: 'A' <= r[i] <= 'Z' || 'a' <= r[i] <= 'z'
  {
    match l
    case BepInEx => "BepInEx"
    case MelonLoader => "MelonLoader"
    case NorthStar => "NorthStar"
    case GodotML => "GodotML"
    case AncientDungeonVR => "AncientDungeonVR"
    case ShimLoader => "ShimLoader"
    case Lovely => "Lovely"
    case ReturnOfModding => "ReturnOfModding"
    case GDWeave => "GDWeave"
  }

  datatype ParseError = VariantNotFound

  /** The derived `FromStr`: an exact, case-sensitive match on a variant name. */
  function ParseLoader(s: string): (r: Result<PackageLoader, ParseError>)
    ensures r.Ok? ==> LoaderName(r.value) == s
    ensures r.Err? ==> forall l: PackageLoader :: LoaderName(l) != s
  {
    if s == "BepInEx" then Ok(BepInEx)
    else if s == "MelonLoader" then Ok(MelonLoader)
    else if s == "NorthStar" then Ok(NorthStar)
    else if s == "GodotML" then Ok(GodotML)
    else if s == "AncientDungeonVR" then Ok(AncientDungeonVR)
    else if s == "ShimLoader" then Ok(ShimLoader)
    else if s == "Lovely" then Ok(Lovely)
    else if s == "ReturnOfModding" then Ok(ReturnOfModding)
    else if s == "GDWeave" then Ok(GDWeave)
    else Err(VariantNotFound)
  }

  /** Distinct loaders have distinct names. */
  lemma LoaderNameInjective(a: PackageLoader, b: PackageLoader)
    ensures LoaderName(a) == LoaderName(b) ==> a == b
  {
  }

  /** Parsing a loader's name gives the loader back. */
  lemma LoaderNameRoundTrip(l: PackageLoader)
    ensures ParseLoader(LoaderName(l)) == Ok(l)
  {
  }
}
