/** Stored images of the configuration: header, payload and checksum, and what loading makes of them. */
module ConfigImage {
  import opened Arith
  import opened ConfigCodec
  import opened ConfigTable
  import Crc32

  const MAGIC: Word32 := 0x4750_4643
  const VERSION: Word16 := 17
  const MAIN_LENGTH: nat := 243
  const IMAGE_LENGTH: nat := 255
  const EXTENSION_MAGIC: Word32 := 0x4333_5249
  const EXTENSION_VERSION: Word16 := 1
  const EXTENSION_LENGTH: nat := 20
  const EXTENSION_IMAGE_LENGTH: nat := 32
  const OLD_TRACK_MASK: int := 0x3C
  const TRACK_MASK: int := 0x7E

  function Header(magic: Word32, version: Word16, length: Word16): (h: seq<Byte>)
    ensures |h| == 8
  {
    Bytes4(magic) + Bytes2(version) + Bytes2(length)
  }

  function Sealed(content: seq<Byte>): seq<Byte> {
    content + Bytes4(Crc32.Checksum(content))
  }

  function Image(magic: Word32, version: Word16, payload: seq<Byte>): (image: seq<Byte>)
    requires |payload| < 0x1_0000
    ensures |image| == |payload| + 12
  {
    Sealed(Header(magic, version, |payload|) + payload)
  }

  /** The fields of the main record and those of the infrared record. */
  function MainPart(p: seq<int>): (main: seq<int>)
    requires |p| == FIELD_COUNT
    ensures |main| == MAIN_COUNT
  {
    p[..MAIN_COUNT]
  }

  function InfraredPart(p: seq<int>): (infrared: seq<int>)
    requires |p| == FIELD_COUNT
    ensures |infrared| == FIELD_COUNT - MAIN_COUNT
  {
    p[MAIN_COUNT..]
  }

  function MainPayload(p: seq<int>): (payload: seq<Byte>)
    requires |p| == FIELD_COUNT
    ensures |payload| == MAIN_LENGTH
  {
    var main := MainPart(p);
    StretchSize(0, |main|);
    Encode(Stretch(0, |main|), main)
  }

  function InfraredPayload(p: seq<int>): (payload: seq<Byte>)
    requires |p| == FIELD_COUNT
    ensures |payload| == EXTENSION_LENGTH
  {
    var infrared := InfraredPart(p);
    StretchSize(MAIN_COUNT, |infrared|);
    Encode(Stretch(MAIN_COUNT, |infrared|), infrared)
  }

  function MainImage(p: seq<int>): (image: seq<Byte>)
    requires |p| == FIELD_COUNT
    ensures |image| == IMAGE_LENGTH
  {
    Image(MAGIC, VERSION, MainPayload(p))
  }

  function ExtensionImage(p: seq<int>): (image: seq<Byte>)
    requires |p| == FIELD_COUNT
    ensures |image| == EXTENSION_IMAGE_LENGTH
  {
    Image(EXTENSION_MAGIC, EXTENSION_VERSION, InfraredPayload(p))
  }

  // ----- reading -----

  function MagicOf(image: seq<Byte>): int
    requires |image| >= 8
  {
    FieldValue(U32, image)
  }

  function VersionOf(image: seq<Byte>): int
    requires |image| >= 8
  {
    FieldValue(U16, image[4..])
  }

  function LengthOf(image: seq<Byte>): nat
    requires |image| >= 8
  {
    (image[6] as int) + 0x100 * (image[7] as int)
  }

  /** The checksum behind `length` payload bytes is that of everything before it. */
  predicate Intact(image: seq<Byte>, length: nat) {
    12 + length <= |image| && FieldValue(U32, image[8 + length..]) == Crc32.Checksum(image[..8 + length])
  }

  /** Layouts this model decodes, by version. */
  function VersionLayout(version: int): Option<nat> {
    match version
    case 7 => Some(0)
    case 8 => Some(1)
    case 9 => Some(2)
    case 10 => Some(3)
    case 11 => Some(3)
    case 12 => Some(4)
    case 13 => Some(5)
    case 14 => Some(6)
    case 15 => Some(7)
    case 17 => Some(8)
    case _ => None
  }

  predicate Supported(version: int, length: nat) {
    VersionLayout(version).Some? && length == LayoutLength(VersionLayout(version).value)
  }

  /** Layouts the firmware also migrates but this model does not decode. */
  predicate Older(version: int, length: nat) {
    (version == 16 && length == 243) || (version == 6 && length == 158) || (version == 5 && length == 137) ||
    (version == 4 && length == 103) || (version == 3 && length == 90) || (version == 2 && length == 68) ||
    (version == 1 && length == 66)
  }

  /** The fields the layout stores, and the defaults for the others. */
  function DecodeMain(layout: nat, payload: seq<Byte>): (p: seq<int>)
    requires layout <= LAST_LAYOUT && |payload| >= LayoutLength(layout)
    ensures |p| == FIELD_COUNT
  {
    var count := LayoutCount(layout);
    LayoutSize(layout, count);
    Decode(Stretch(0, count), payload) + Defaults()[count..]
  }

  /** Up to version 10 the former default tracking mask is replaced by the present one. */
  function WithCurrentMask(version: int, p: seq<int>): (q: seq<int>)
    requires |p| == FIELD_COUNT
    ensures |q| == FIELD_COUNT
  {
    if version <= 10 && p[GRAYSCALE_TRACK_MASK] == OLD_TRACK_MASK then p[GRAYSCALE_TRACK_MASK := TRACK_MASK] else p
  }

  function DecodeInfrared(payload: seq<Byte>, count: nat): (infrared: seq<int>)
    requires |payload| >= EXTENSION_LENGTH && MAIN_COUNT + count == FIELD_COUNT
    ensures |infrared| == count
  {
    StretchSize(MAIN_COUNT, count);
    Decode(Stretch(MAIN_COUNT, count), payload)
  }

  function LoadExtension(image: seq<Byte>, p: seq<int>): (loaded: Option<seq<int>>)
    requires |image| == EXTENSION_IMAGE_LENGTH && |p| == FIELD_COUNT
    ensures loaded.Some? ==> |loaded.value| == FIELD_COUNT
  {
    if MagicOf(image) == EXTENSION_MAGIC && VersionOf(image) == EXTENSION_VERSION &&
       LengthOf(image) == EXTENSION_LENGTH && Intact(image, EXTENSION_LENGTH)
    then Some(MainPart(p) + DecodeInfrared(image[8..], |p| - MAIN_COUNT))
    else None
  }

  datatype LoadResult = FromFram(params: seq<int>, dirty: bool) | Invalid | OlderLayout

  /** The infrared record is used if it is intact and leaves the configuration valid. */
  function WithExtension(p: seq<int>, extension: seq<Byte>, current: bool): LoadResult
    requires |extension| == EXTENSION_IMAGE_LENGTH && |p| == FIELD_COUNT
  {
    var q := LoadExtension(extension, p);
    if q.Some? && ParamsValid(q.value) then FromFram(q.value, !current) else FromFram(p, true)
  }

  /** The parameters an intact image of a supported layout holds. */
  function Migrated(image: seq<Byte>): (p: seq<int>)
    requires |image| == IMAGE_LENGTH && Supported(VersionOf(image), LengthOf(image))
    ensures |p| == FIELD_COUNT
  {
    WithCurrentMask(VersionOf(image), DecodeMain(VersionLayout(VersionOf(image)).value, image[8..]))
  }

  function Load(image: seq<Byte>, extension: seq<Byte>): LoadResult
    requires |image| == IMAGE_LENGTH && |extension| == EXTENSION_IMAGE_LENGTH
  {
    var version, length := VersionOf(image), LengthOf(image);
    if MagicOf(image) != MAGIC || (!Supported(version, length) && !Older(version, length)) then Invalid
    else if !Intact(image, length) then Invalid
    else if !Supported(version, length) then OlderLayout
    else if !ParamsValid(Migrated(image)) then Invalid
    else WithExtension(Migrated(image), extension, version == VERSION)
  }

  // ----- what is written is what is read -----

  lemma HeaderFields(magic: Word32, version: Word16, length: Word16, rest: seq<Byte>)
    ensures var image := Header(magic, version, length) + rest;
            MagicOf(image) == magic && VersionOf(image) == version && LengthOf(image) == length && image[8..] == rest
  {
    var image := Header(magic, version, length) + rest;
    assert image == FieldBytes(U32, magic) + (Bytes2(version) + Bytes2(length) + rest);
    FieldRoundTrip(U32, magic, Bytes2(version) + Bytes2(length) + rest);
    assert image[4..] == FieldBytes(U16, version) + (Bytes2(length) + rest);
    FieldRoundTrip(U16, version, Bytes2(length) + rest);
    assert image[6..] == FieldBytes(U16, length) + rest;
    FieldRoundTrip(U16, length, rest);
    assert image[6..][0] == image[6] && image[6..][1] == image[7];
  }

  /** An image is recognised by its own header and is intact, whatever lies behind it in memory. */
  lemma ImageReads(magic: Word32, version: Word16, payload: seq<Byte>, tail: seq<Byte>)
    requires |payload| < 0x1_0000
    ensures var image := Image(magic, version, payload) + tail;
            MagicOf(image) == magic && VersionOf(image) == version && LengthOf(image) == |payload| &&
            Intact(image, |payload|) && image[8..8 + |payload|] == payload
  {
    hide Header;
    var content := Header(magic, version, |payload|) + payload;
    var image := Image(magic, version, payload) + tail;
    var crc := FieldBytes(U32, Crc32.Checksum(content));
    HeaderFields(magic, version, |payload|, payload + crc + tail);
    assert image == Header(magic, version, |payload|) + (payload + crc + tail);
    assert image[..8 + |payload|] == content;
    assert image[8 + |payload|..] == crc + tail;
    FieldRoundTrip(U32, Crc32.Checksum(content), tail);
  }

  lemma MainFits(p: seq<int>, main: seq<int>)
    requires ParamsFit(p) && main == MainPart(p)
    ensures AllFit(Stretch(0, |main|), main)
  {
    forall i | 0 <= i < |main| ensures Fits(Stretch(0, |main|)[i], main[i]) {
      assert Stretch(0, |p|)[i] == KindOf(i);
    }
  }

  lemma InfraredFits(p: seq<int>, infrared: seq<int>)
    requires ParamsFit(p) && infrared == InfraredPart(p)
    ensures AllFit(Stretch(MAIN_COUNT, |infrared|), infrared)
  {
    forall i | 0 <= i < |infrared| ensures Fits(Stretch(MAIN_COUNT, |infrared|)[i], infrared[i]) {
      assert Stretch(0, |p|)[MAIN_COUNT + i] == KindOf(MAIN_COUNT + i);
    }
  }

  /** The prefix of a stored payload that an older version had decodes to the stored values of the fields that
      version knew, and to the defaults of those it did not. */
  lemma PrefixMigrates(p: seq<int>, layout: nat, tail: seq<Byte>)
    requires ParamsFit(p) && layout <= LAST_LAYOUT
    ensures DecodeMain(layout, MainPayload(p)[..LayoutLength(layout)] + tail) ==
            p[..LayoutCount(layout)] + Defaults()[LayoutCount(layout)..]
  {
    var main, n := MainPart(p), LayoutCount(layout);
    MainFits(p, main);
    LayoutSize(layout, n);
    assert Stretch(0, |main|)[..n] == Stretch(0, n);
    PrefixDecodesAnyway(Stretch(0, |main|), main, n, LayoutLength(layout), MainPayload(p), tail);
    assert main[..n] == p[..n];
  }

  // ----- the infrared defaults never spoil a valid configuration -----

  /** The main fields of `p` with the default infrared settings. */
  function WithDefaultInfrared(p: seq<int>): (q: seq<int>)
    requires |p| == FIELD_COUNT
    ensures |q| == FIELD_COUNT
  {
    MainPart(p) + Defaults()[MAIN_COUNT..]
  }

  lemma DefaultInfraredInRange(p: seq<int>)
    requires |p| == FIELD_COUNT && AllInRange(p)
    ensures AllInRange(WithDefaultInfrared(p))
  {
    var q := WithDefaultInfrared(p);
    DefaultsValid();
    forall i | 0 <= i < FIELD_COUNT ensures InRange(i, q[i]) {
      assert q[i] == if i < MAIN_COUNT then p[i] else Defaults()[i];
      assert InRange(i, p[i]) && InRange(i, Defaults()[i]);
    }
  }

  lemma DefaultInfraredCoherent(p: seq<int>)
    requires |p| == FIELD_COUNT && Coherent(p)
    ensures Coherent(WithDefaultInfrared(p))
  {
    var q := WithDefaultInfrared(p);
    assert forall i :: 0 <= i < MAIN_COUNT ==> q[i] == p[i];
    LineDefaults();
    assert q[INFRARED_ADC_THRESHOLD] == Defaults()[INFRARED_ADC_THRESHOLD];
    forall i | 0 <= i < CHANNELS ensures ChannelUsable(q, i) {
      assert ChannelUsable(p, i);
    }
  }

  lemma DefaultInfraredValid(p: seq<int>)
    requires ParamsValid(p)
    ensures ParamsValid(WithDefaultInfrared(p))
  {
    DefaultInfraredInRange(p);
    DefaultInfraredCoherent(p);
  }

  // ----- saving and loading -----

  lemma MigratedFrom(image: seq<Byte>, version: Word16, layout: nat, stored: seq<Byte>, rest: seq<Byte>)
    requires |image| == IMAGE_LENGTH && VersionOf(image) == version &&
             LengthOf(image) == LayoutLength(layout) == |stored|
    requires VersionLayout(version) == Some(layout) && image[8..] == stored + rest
    ensures Supported(VersionOf(image), LengthOf(image)) && layout <= LAST_LAYOUT
    ensures Migrated(image) == WithCurrentMask(version, DecodeMain(layout, stored + rest))
  {
  }

  /** An image of any layout is recognised, intact, and holds what its payload decodes to. */
  lemma ImageMigrates(version: Word16, layout: nat, stored: seq<Byte>, tail: seq<Byte>, image: seq<Byte>, q: seq<int>)
    requires VersionLayout(version) == Some(layout) && layout <= LAST_LAYOUT && |stored| == LayoutLength(layout)
    requires image == Image(MAGIC, version, stored) + tail && |image| == IMAGE_LENGTH
    requires DecodeMain(layout, stored + image[8 + |stored|..]) == q
    ensures MagicOf(image) == MAGIC && VersionOf(image) == version && LengthOf(image) == |stored| &&
            Intact(image, |stored|)
    ensures Supported(VersionOf(image), LengthOf(image)) && Migrated(image) == WithCurrentMask(version, q)
  {
    ImageReads(MAGIC, version, stored, tail);
    var rest := image[8 + |stored|..];
    assert image[8..] == stored + rest;
    MigratedFrom(image, version, layout, stored, rest);
  }

  /** What holds of an image in memory whose payload is the prefix of `p` that `version` stores. */
  predicate Holds(image: seq<Byte>, p: seq<int>, version: Word16, layout: nat)
    requires |image| == IMAGE_LENGTH && |p| == FIELD_COUNT && layout <= LAST_LAYOUT
  {
    MagicOf(image) == MAGIC && VersionOf(image) == version && LengthOf(image) == LayoutLength(layout) &&
    Intact(image, LayoutLength(layout)) && Supported(VersionOf(image), LengthOf(image)) &&
    Migrated(image) == WithCurrentMask(version, p[..LayoutCount(layout)] + Defaults()[LayoutCount(layout)..])
  }

  /** Every layout's image, followed by anything, holds the prefix it was made from. */
  lemma StoredImageReads(p: seq<int>, version: Word16, layout: nat, tail: seq<Byte>, image: seq<Byte>)
    requires ParamsFit(p) && VersionLayout(version) == Some(layout) && layout <= LAST_LAYOUT && |image| == IMAGE_LENGTH
    requires image == Image(MAGIC, version, MainPayload(p)[..LayoutLength(layout)]) + tail
    ensures Holds(image, p, version, layout)
  {
    hide Image, MagicOf, VersionOf, LengthOf, Intact, Migrated, Supported, DecodeMain, WithCurrentMask;
    var stored := MainPayload(p)[..LayoutLength(layout)];
    PrefixMigrates(p, layout, image[8 + |stored|..]);
    ImageMigrates(version, layout, stored, tail, image, p[..LayoutCount(layout)] + Defaults()[LayoutCount(layout)..]);
  }

  lemma MainImageHolds(p: seq<int>, version: Word16, layout: nat)
    requires ParamsFit(p) && version == VERSION && layout == LAST_LAYOUT
    ensures Holds(MainImage(p), p, version, layout)
  {
    hide Holds, MainPayload, Image;
    var payload := MainPayload(p);
    assert payload[..LayoutLength(layout)] == payload && MainImage(p) + [] == MainImage(p);
    StoredImageReads(p, version, layout, [], MainImage(p));
  }

  lemma CurrentHolds(image: seq<Byte>, p: seq<int>, version: Word16, layout: nat)
    requires |image| == IMAGE_LENGTH && |p| == FIELD_COUNT && version == VERSION && layout == LAST_LAYOUT
    requires Holds(image, p, version, layout)
    ensures Migrated(image) == WithDefaultInfrared(p)
  {
    hide Migrated, Intact, MagicOf, VersionOf, LengthOf;
  }

  /** A main image written by this version holds the main fields. */
  lemma MainImageReads(p: seq<int>)
    requires ParamsFit(p)
    ensures Holds(MainImage(p), p, VERSION, LAST_LAYOUT) && Migrated(MainImage(p)) == WithDefaultInfrared(p)
  {
    hide Holds, Migrated, MainImage, WithDefaultInfrared;
    MainImageHolds(p, VERSION, LAST_LAYOUT);
    CurrentHolds(MainImage(p), p, VERSION, LAST_LAYOUT);
  }

  lemma InfraredReads(p: seq<int>, tail: seq<Byte>)
    requires ParamsFit(p)
    ensures Decode(Stretch(MAIN_COUNT, FIELD_COUNT - MAIN_COUNT), InfraredPayload(p) + tail) == InfraredPart(p)
  {
    hide Decode, Encode;
    var infrared := InfraredPart(p);
    InfraredFits(p, infrared);
    RoundTrip(Stretch(MAIN_COUNT, |infrared|), infrared, tail);
  }

  lemma ExtensionHolds(p: seq<int>, image: seq<Byte>)
    requires |p| == FIELD_COUNT && image == ExtensionImage(p)
    ensures MagicOf(image) == EXTENSION_MAGIC && VersionOf(image) == EXTENSION_VERSION
    ensures LengthOf(image) == EXTENSION_LENGTH && Intact(image, EXTENSION_LENGTH)
    ensures image[8..] == InfraredPayload(p) + image[8 + EXTENSION_LENGTH..]
  {
    hide Image, InfraredPayload, MagicOf, VersionOf, LengthOf, Intact;
    ImageReads(EXTENSION_MAGIC, EXTENSION_VERSION, InfraredPayload(p), []);
    assert image + [] == image;
    assert image[8..] == image[8..8 + EXTENSION_LENGTH] + image[8 + EXTENSION_LENGTH..];
  }

  lemma ExtensionReads(p: seq<int>, q: seq<int>)
    requires ParamsFit(p) && |q| == FIELD_COUNT && MainPart(q) == MainPart(p)
    ensures LoadExtension(ExtensionImage(p), q) == Some(p)
  {
    hide ExtensionImage, InfraredPayload, MagicOf, VersionOf, LengthOf, Intact, Decode, Stretch;
    var image := ExtensionImage(p);
    ExtensionHolds(p, image);
    InfraredReads(p, image[8 + EXTENSION_LENGTH..]);
    assert MainPart(p) + InfraredPart(p) == p;
  }

  /** Loading what was saved restores exactly the saved parameters, for every valid configuration. */
  lemma SaveThenLoad(p: seq<int>)
    requires ParamsFit(p) && ParamsValid(p)
    ensures Load(MainImage(p), ExtensionImage(p)) == FromFram(p, false)
  {
    MainImageReads(p);
    DefaultInfraredValid(p);
    ExtensionReads(p, WithDefaultInfrared(p));
  }

  /** An infrared record is unusable when its header is not the present one, its checksum is wrong, or it would
      make the configuration invalid. */
  predicate Unusable(extension: seq<Byte>, p: seq<int>)
    requires |extension| == EXTENSION_IMAGE_LENGTH && |p| == FIELD_COUNT
  {
    MagicOf(extension) != EXTENSION_MAGIC || VersionOf(extension) != EXTENSION_VERSION ||
    LengthOf(extension) != EXTENSION_LENGTH || !Intact(extension, EXTENSION_LENGTH) ||
    !ParamsValid(LoadExtension(extension, p).value)
  }

  lemma UnusableIgnored(p: seq<int>, extension: seq<Byte>, current: bool)
    requires |extension| == EXTENSION_IMAGE_LENGTH && |p| == FIELD_COUNT
    ensures WithExtension(p, extension, current) ==
            if Unusable(extension, p) then FromFram(p, true) else FromFram(LoadExtension(extension, p).value, !current)
  {
    hide ParamsValid, Intact, MagicOf, VersionOf, LengthOf;
  }

  /** With any infrared record whatever a saved main image loads its main fields; the infrared settings are those of
      the record if that is usable, and otherwise the defaults, marked for saving. */
  lemma LoadWithExtension(p: seq<int>, extension: seq<Byte>)
    requires ParamsFit(p) && ParamsValid(p) && |extension| == EXTENSION_IMAGE_LENGTH
    ensures var q := WithDefaultInfrared(p);
            Load(MainImage(p), extension) ==
            if Unusable(extension, q) then FromFram(q, true) else FromFram(LoadExtension(extension, q).value, false)
  {
    hide ParamsValid, Intact, MagicOf, VersionOf, LengthOf, Unusable, LoadExtension;
    MainImageReads(p);
    DefaultInfraredValid(p);
    UnusableIgnored(WithDefaultInfrared(p), extension, true);
  }

  /** An image of an older layout loads as its stored fields, the defaults of the newer ones, and the present
      tracking mask in place of the former default, completed by the infrared record if that is usable. */
  lemma OlderImageLoads(p: seq<int>, version: Word16, layout: nat, tail: seq<Byte>, extension: seq<Byte>)
    requires ParamsFit(p) && VersionLayout(version) == Some(layout) && layout < LAST_LAYOUT
    requires |tail| == MAIN_LENGTH - LayoutLength(layout) && |extension| == EXTENSION_IMAGE_LENGTH
    ensures var image := Image(MAGIC, version, MainPayload(p)[..LayoutLength(layout)]) + tail;
            var q := WithCurrentMask(version, p[..LayoutCount(layout)] + Defaults()[LayoutCount(layout)..]);
            Load(image, extension) ==
            if !ParamsValid(q) then Invalid
            else if Unusable(extension, q) then FromFram(q, true)
            else FromFram(LoadExtension(extension, q).value, true)
  {
    hide ParamsValid, Intact, MagicOf, VersionOf, LengthOf, Unusable, LoadExtension;
    var image := Image(MAGIC, version, MainPayload(p)[..LayoutLength(layout)]) + tail;
    StoredImageReads(p, version, layout, tail, image);
    UnusableIgnored(Migrated(image), extension, false);
  }

  // ----- corruption -----

  /** With its length field intact, a sealed image with one byte changed is no longer intact. */
  lemma ChangedByteShows(content: seq<Byte>, k: nat, x: Byte, image: seq<Byte>, changed: seq<Byte>)
    requires |content| >= 8 && image == Sealed(content) && k < |image| && x != image[k] && changed == image[k := x]
    ensures !Intact(changed, |content| - 8)
  {
    var n, sum := |content|, Crc32.Checksum(content);
    var crc := FieldBytes(U32, sum);
    FieldRoundTrip(U32, sum, []);
    assert crc + [] == crc;
    if k < n {
      Crc32.ChecksumDetectsOneByte(content, k, x);
      assert changed[..n] == content[k := x];
      assert changed[n..] == crc;
    } else {
      assert changed[..n] == content;
      assert changed[n..] == crc[k - n := x];
      WordInjective(crc, k - n, x);
    }
  }

  lemma LengthChanges(image: seq<Byte>, k: nat, x: Byte)
    requires |image| >= 8 && k < |image| && x != image[k]
    ensures LengthOf(image[k := x]) == LengthOf(image) <==> k != 6 && k != 7
  {
  }

  lemma VersionStays(image: seq<Byte>, k: nat, x: Byte)
    requires |image| >= 8 && (k == 6 || k == 7)
    ensures VersionOf(image[k := x]) == VersionOf(image)
  {
  }

  lemma DamagedRefused(image: seq<Byte>, extension: seq<Byte>)
    requires |image| == IMAGE_LENGTH && |extension| == EXTENSION_IMAGE_LENGTH
    requires LengthOf(image) == MAIN_LENGTH && !Intact(image, MAIN_LENGTH)
    ensures Load(image, extension) == Invalid
  {
  }

  lemma WrongLengthRefused(image: seq<Byte>, extension: seq<Byte>)
    requires |image| == IMAGE_LENGTH && |extension| == EXTENSION_IMAGE_LENGTH
    requires VersionOf(image) == VERSION && LengthOf(image) != MAIN_LENGTH
    ensures Load(image, extension) == Invalid
  {
    hide Intact, WithExtension, Migrated, ParamsValid, MagicOf, VersionOf, LengthOf;
  }

  lemma MainHeader(p: seq<int>)
    requires |p| == FIELD_COUNT
    ensures VersionOf(MainImage(p)) == VERSION && LengthOf(MainImage(p)) == MAIN_LENGTH
  {
    hide MainPayload, VersionOf, LengthOf;
    ImageReads(MAGIC, VERSION, MainPayload(p), []);
    assert MainImage(p) + [] == MainImage(p);
  }

  /** Changing any one byte of a saved main image, wherever it lies, makes loading refuse it. */
  lemma CorruptImageRefused(p: seq<int>, k: nat, x: Byte, extension: seq<Byte>)
    requires |p| == FIELD_COUNT && k < IMAGE_LENGTH && x != MainImage(p)[k] && |extension| == EXTENSION_IMAGE_LENGTH
    ensures Load(MainImage(p)[k := x], extension) == Invalid
  {
    var image := MainImage(p);
    var changed := image[k := x];
    MainHeader(p);
    LengthChanges(image, k, x);
    if k == 6 || k == 7 {
      VersionStays(image, k, x);
      WrongLengthRefused(changed, extension);
    } else {
      ChangedByteShows(Header(MAGIC, VERSION, MAIN_LENGTH) + MainPayload(p), k, x, image, changed);
      DamagedRefused(changed, extension);
    }
  }
}
