/**
 * Rendering of an emoji: a bundled SVG image when the emoji has an asset,
 * otherwise the emoji (or a fallback) as text.
 */
module FluentEmoji {
  import opened Wrappers
  import opened Emoji

  const EMOJI_ASSET_MAP: map<string, string> := map[
    EmojiOf(Target) := "target.svg",
    EmojiOf(Gift) := "gift.svg",
    EmojiOf(Coffee) := "coffee.svg",
    EmojiOf(Books) := "books.svg",
    EmojiOf(Spa) := "spa.svg",
    EmojiOf(Movie) := "movie.svg",
    EmojiOf(Writing) := "writing.svg",
    EmojiOf(Happy) := "happy.svg",
    EmojiOf(Calm) := "calm.svg",
    EmojiOf(Sad) := "sad.svg",
    EmojiOf(Anxious) := "anxious.svg",
    EmojiOf(Tired) := "tired.svg",
    EmojiOf(Frustrated) := "frustrated.svg",
    EmojiOf(Sparkles) := "sparkles.svg",
    EmojiOf(Cat) := "cat.svg",
    EmojiOf(Gear) := "gear.svg",
    EmojiOf(Chart) := "chart.svg"
  ]

  const DEFAULT_SIZE: int := 24
  const ASSET_DIR: string := "/fluent-emoji/"

  /** What the component renders: an image element or a text span with `role="img"`. */
  datatype Rendered =
    | Image(src: string, alt: string, width: int, height: int)
    | Glyph(content: string, ariaLabel: string, fontSize: int)

  /** `EMOJI_ASSET_MAP[emoji]`: the file of a mapped emoji, never an empty name. */
  function AssetFor(emoji: string): (r: Option<string>)
    ensures r.Some? <==> emoji in EMOJI_ASSET_MAP
    ensures r.Some? ==> r.value == EMOJI_ASSET_MAP[emoji] && r.value != ""
  {
    AssetNamesNonEmpty();
    if emoji in EMOJI_ASSET_MAP then Some(EMOJI_ASSET_MAP[emoji]) else None
  }

  /** `FluentEmoji({emoji, label, size, fallback})`; absent props are `None`. The `label` prop is `caption` (`label` is reserved in Dafny). */
  function Render(emoji: string, caption: Option<string>, size: Option<int>, fallback: Option<string>): (r: Rendered)
    ensures r.Image? ==> r.width == r.height == size.OrElse(DEFAULT_SIZE)
    ensures r.Glyph? ==> r.fontSize == size.OrElse(DEFAULT_SIZE)
  {
    var size := size.OrElse(DEFAULT_SIZE);
    var fileName := AssetFor(emoji);
    if fileName == None || fileName == Some("") then
      Glyph(fallback.OrElse(emoji), caption.OrElse(fallback.OrElse(emoji)), size)
    else
      Image(ASSET_DIR + fileName.value, caption.OrElse(emoji), size, size)
  }

  /** Every bundled file name is non-empty, so "has an asset" is map membership. */
  lemma AssetNamesNonEmpty()
    ensures forall e :: e in EMOJI_ASSET_MAP ==> |EMOJI_ASSET_MAP[e]| > 4
  {}

  /** An emoji with an asset is rendered as that file; the alt text is the caption, else the emoji. */
  lemma MappedEmojiIsImage(emoji: string, caption: Option<string>, size: Option<int>, fallback: Option<string>)
    requires emoji in EMOJI_ASSET_MAP
    ensures Render(emoji, caption, size, fallback)
      == Image(ASSET_DIR + EMOJI_ASSET_MAP[emoji], caption.OrElse(emoji), size.OrElse(24), size.OrElse(24))
  {
    AssetNamesNonEmpty();
  }

  /** An emoji without an asset is text: the fallback, else the emoji; labelled by the caption, fallback, emoji in that order. */
  lemma UnmappedEmojiIsText(emoji: string, caption: Option<string>, size: Option<int>, fallback: Option<string>)
    requires emoji !in EMOJI_ASSET_MAP
    ensures var r := Render(emoji, caption, size, fallback);
      && r.Glyph?
      && r.content == (if fallback.Some? then fallback.value else emoji)
      && r.ariaLabel == (if caption.Some? then caption.value else if fallback.Some? then fallback.value else emoji)
  {}

  /** The image never shows the fallback: its alt text ignores it. */
  lemma ImageAltIgnoresFallback(emoji: string, caption: Option<string>, size: Option<int>, f1: Option<string>, f2: Option<string>)
    requires emoji in EMOJI_ASSET_MAP
    ensures Render(emoji, caption, size, f1) == Render(emoji, caption, size, f2)
  {
    AssetNamesNonEmpty();
  }

  /** The bundled file of each catalogue entry, by name; the neutral face has none. */
  function AssetFileOf(name: EmojiName): Option<string> {
    match name
    case Target => Some("target.svg")
    case Gift => Some("gift.svg")
    case Coffee => Some("coffee.svg")
    case Books => Some("books.svg")
    case Spa => Some("spa.svg")
    case Movie => Some("movie.svg")
    case Writing => Some("writing.svg")
    case Happy => Some("happy.svg")
    case Calm => Some("calm.svg")
    case Sad => Some("sad.svg")
    case Anxious => Some("anxious.svg")
    case Tired => Some("tired.svg")
    case Frustrated => Some("frustrated.svg")
    case Sparkles => Some("sparkles.svg")
    case Cat => Some("cat.svg")
    case Gear => Some("gear.svg")
    case Chart => Some("chart.svg")
    case Neutral => None
  }

  /** Each catalogue emoji is told apart from the others by its one code point. */
  lemma FirstCodePointsDiffer(n: EmojiName)
    ensures forall x {:trigger EmojiOf(x)} :: x != n ==> EmojiOf(x)[0] != EmojiOf(n)[0]
  {}

  /** The asset map agrees with `AssetFileOf`, entry by entry. */
  lemma AssetMapByName(name: EmojiName)
    ensures AssetFor(EmojiOf(name)) == AssetFileOf(name)
  {
    match name
    case Target => AssetMapEntryTarget();
    case Gift => AssetMapEntryGift();
    case Coffee => AssetMapEntryCoffee();
    case Books => AssetMapEntryBooks();
    case Spa => AssetMapEntrySpa();
    case Movie => AssetMapEntryMovie();
    case Writing => AssetMapEntryWriting();
    case Happy => AssetMapEntryHappy();
    case Calm => AssetMapEntryCalm();
    case Sad => AssetMapEntrySad();
    case Anxious => AssetMapEntryAnxious();
    case Tired => AssetMapEntryTired();
    case Frustrated => AssetMapEntryFrustrated();
    case Sparkles => AssetMapEntrySparkles();
    case Cat => AssetMapEntryCat();
    case Gear => AssetMapEntryGear();
    case Chart => AssetMapEntryChart();
    case Neutral => NeutralHasNoAsset();
  }

  // Helpers of AssetMapByName, one per map entry: each lookup is a separate,
  // small proof obligation (a single obligation for all 17 is near the solver's limit).
  lemma AssetMapEntryTarget()
    ensures AssetFor(EmojiOf(Target)) == AssetFileOf(Target)
  {
    FirstCodePointsDiffer(Target);
  }

  lemma AssetMapEntryGift()
    ensures AssetFor(EmojiOf(Gift)) == AssetFileOf(Gift)
  {
    FirstCodePointsDiffer(Gift);
  }

  lemma AssetMapEntryCoffee()
    ensures AssetFor(EmojiOf(Coffee)) == AssetFileOf(Coffee)
  {
    FirstCodePointsDiffer(Coffee);
  }

  lemma AssetMapEntryBooks()
    ensures AssetFor(EmojiOf(Books)) == AssetFileOf(Books)
  {
    FirstCodePointsDiffer(Books);
  }

  lemma AssetMapEntrySpa()
    ensures AssetFor(EmojiOf(Spa)) == AssetFileOf(Spa)
  {
    FirstCodePointsDiffer(Spa);
  }

  lemma AssetMapEntryMovie()
    ensures AssetFor(EmojiOf(Movie)) == AssetFileOf(Movie)
  {
    FirstCodePointsDiffer(Movie);
  }

  lemma AssetMapEntryWriting()
    ensures AssetFor(EmojiOf(Writing)) == AssetFileOf(Writing)
  {
    FirstCodePointsDiffer(Writing);
  }

  lemma AssetMapEntryHappy()
    ensures AssetFor(EmojiOf(Happy)) == AssetFileOf(Happy)
  {
    FirstCodePointsDiffer(Happy);
  }

  lemma AssetMapEntryCalm()
    ensures AssetFor(EmojiOf(Calm)) == AssetFileOf(Calm)
  {
    FirstCodePointsDiffer(Calm);
  }

  lemma AssetMapEntrySad()
    ensures AssetFor(EmojiOf(Sad)) == AssetFileOf(Sad)
  {
    FirstCodePointsDiffer(Sad);
  }

  lemma AssetMapEntryAnxious()
    ensures AssetFor(EmojiOf(Anxious)) == AssetFileOf(Anxious)
  {
    FirstCodePointsDiffer(Anxious);
  }

  lemma AssetMapEntryTired()
    ensures AssetFor(EmojiOf(Tired)) == AssetFileOf(Tired)
  {
    FirstCodePointsDiffer(Tired);
  }

  lemma AssetMapEntryFrustrated()
    ensures AssetFor(EmojiOf(Frustrated)) == AssetFileOf(Frustrated)
  {
    FirstCodePointsDiffer(Frustrated);
  }

  lemma AssetMapEntrySparkles()
    ensures AssetFor(EmojiOf(Sparkles)) == AssetFileOf(Sparkles)
  {
    FirstCodePointsDiffer(Sparkles);
  }

  lemma AssetMapEntryCat()
    ensures AssetFor(EmojiOf(Cat)) == AssetFileOf(Cat)
  {
    FirstCodePointsDiffer(Cat);
  }

  lemma AssetMapEntryGear()
    ensures AssetFor(EmojiOf(Gear)) == AssetFileOf(Gear)
  {
    FirstCodePointsDiffer(Gear);
  }

  lemma AssetMapEntryChart()
    ensures AssetFor(EmojiOf(Chart)) == AssetFileOf(Chart)
  {
    FirstCodePointsDiffer(Chart);
  }

  lemma NeutralHasNoAsset()
    ensures EmojiOf(Neutral) !in EMOJI_ASSET_MAP
  {}

  /** Every key of the asset map is a catalogue value other than the neutral face. */
  lemma AssetKeysAreCatalogue(e: string)
    requires e in EMOJI_ASSET_MAP
    ensures exists name :: name != Neutral && e == EmojiOf(name)
  {}

  /** Which catalogue entry a bundled file depicts: the inverse of `AssetFileOf`. */
  function NameForFile(file: string): Option<EmojiName> {
    if file == "target.svg" then Some(Target)
    else if file == "gift.svg" then Some(Gift)
    else if file == "coffee.svg" then Some(Coffee)
    else if file == "books.svg" then Some(Books)
    else if file == "spa.svg" then Some(Spa)
    else if file == "movie.svg" then Some(Movie)
    else if file == "writing.svg" then Some(Writing)
    else if file == "happy.svg" then Some(Happy)
    else if file == "calm.svg" then Some(Calm)
    else if file == "sad.svg" then Some(Sad)
    else if file == "anxious.svg" then Some(Anxious)
    else if file == "tired.svg" then Some(Tired)
    else if file == "frustrated.svg" then Some(Frustrated)
    else if file == "sparkles.svg" then Some(Sparkles)
    else if file == "cat.svg" then Some(Cat)
    else if file == "gear.svg" then Some(Gear)
    else if file == "chart.svg" then Some(Chart)
    else None
  }

  /** `NameForFile` undoes `AssetFileOf` on every entry that has a file. */
  lemma AssetFileInvertible(name: EmojiName)
    requires name != Neutral
    ensures AssetFileOf(name).Some? && NameForFile(AssetFileOf(name).value) == Some(name)
  {
    if name == Target || name == Gift || name == Coffee || name == Books || name == Spa || name == Movie || name == Writing {
      InvertTargetToWriting(name);
    } else if name == Happy || name == Calm || name == Sad || name == Anxious || name == Tired || name == Frustrated {
      InvertHappyToFrustrated(name);
    } else if name == Sparkles || name == Cat {
      InvertSparklesAndCat(name);
    } else {
      InvertGearAndChart(name);
    }
  }

  // Helpers of AssetFileInvertible: the same case split, in groups small enough
  // for the solver to check each group on its own.
  lemma {:induction false} InvertTargetToWriting(name: EmojiName)
    requires name == Target || name == Gift || name == Coffee || name == Books || name == Spa || name == Movie || name == Writing
    ensures AssetFileOf(name).Some? && NameForFile(AssetFileOf(name).value) == Some(name)
  {
    match name
    case Target =>
    case Gift =>
    case Coffee =>
    case Books =>
    case Spa =>
    case Movie =>
    case Writing =>
  }

  lemma {:induction false} InvertHappyToFrustrated(name: EmojiName)
    requires name == Happy || name == Calm || name == Sad || name == Anxious || name == Tired || name == Frustrated
    ensures AssetFileOf(name).Some? && NameForFile(AssetFileOf(name).value) == Some(name)
  {
    match name
    case Happy =>
    case Calm =>
    case Sad =>
    case Anxious =>
    case Tired =>
    case Frustrated =>
  }

  lemma {:induction false} InvertSparklesAndCat(name: EmojiName)
    requires name == Sparkles || name == Cat
    ensures AssetFileOf(name).Some? && NameForFile(AssetFileOf(name).value) == Some(name)
  {
    match name
    case Sparkles =>
    case Cat =>
  }

  lemma {:induction false} InvertGearAndChart(name: EmojiName)
    requires name == Gear || name == Chart
    ensures AssetFileOf(name).Some? && NameForFile(AssetFileOf(name).value) == Some(name)
  {
    match name
    case Gear =>
    case Chart =>
  }

  /** Distinct emoji have distinct asset files, so the asset map is injective. */
  lemma AssetMapInjective(a: string, b: string)
    requires a in EMOJI_ASSET_MAP && b in EMOJI_ASSET_MAP && a != b
    ensures EMOJI_ASSET_MAP[a] != EMOJI_ASSET_MAP[b]
  {
    AssetKeysAreCatalogue(a);
    AssetKeysAreCatalogue(b);
    var na :| na != Neutral && a == EmojiOf(na);
    var nb :| nb != Neutral && b == EmojiOf(nb);
    AssetMapByName(na);
    AssetMapByName(nb);
    AssetFileInvertible(na);
    AssetFileInvertible(nb);
  }
}
