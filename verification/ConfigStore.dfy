/** The configuration store as the firmware keeps it: one parameter record in memory, saved to and loaded from
    a byte-addressed memory whose accesses succeed or fail. */
module ConfigStore {
  import opened Arith
  import opened ConfigCodec
  import opened ConfigTable
  import opened ConfigImage
  import Crc32

  const FRAM_SIZE: nat := 0x2000
  const EXTENSION_ADDRESS: nat := 0x1FD0

  datatype Outcome = NotAttempted | Explicit | FromFram | IoError | BadImage
  datatype Status = Ok | Failed | NotReady | InvalidArg | NotModelled

  lemma {:induction false} DecodeFits(kinds: seq<Kind>, bytes: seq<Byte>)
    requires |bytes| >= TotalSize(kinds)
    ensures AllFit(kinds, Decode(kinds, bytes))
    decreases |kinds|
  {
    if kinds != [] {
      DecodeFits(kinds[1..], bytes[Size(kinds[0])..]);
      FieldFits(kinds[0], bytes);
    }
  }

  lemma FieldFits(k: Kind, bytes: seq<Byte>)
    requires |bytes| >= Size(k)
    ensures Fits(k, FieldValue(k, bytes))
  {
  }

  lemma InRangeFits(i: nat, v: int)
    requires i < FIELD_COUNT && SpecOf(i).lo <= v <= SpecOf(i).hi
    ensures Fits(KindOf(i), v)
  {
    var spec := SpecOf(i);
    assert RangeFits(KindOf(i), spec);
  }

  lemma DefaultsFit()
    ensures ParamsFit(Defaults())
  {
    var d := Defaults();
    forall i | 0 <= i < FIELD_COUNT ensures Fits(Stretch(0, |d|)[i], d[i]) {
      assert Stretch(0, |d|)[i] == KindOf(i) && Proper(SpecOf(i));
      InRangeFits(i, d[i]);
    }
  }

  lemma MigratedFits(image: seq<Byte>)
    requires |image| == IMAGE_LENGTH && Supported(VersionOf(image), LengthOf(image))
    ensures ParamsFit(Migrated(image))
  {
    var layout := VersionLayout(VersionOf(image)).value;
    var count := LayoutCount(layout);
    LayoutSize(layout, count);
    DecodeFits(Stretch(0, count), image[8..]);
    DefaultsFit();
    var p, d := DecodeMain(layout, image[8..]), Defaults();
    forall i | 0 <= i < FIELD_COUNT ensures Fits(KindOf(i), p[i]) {
      if i < count { assert Stretch(0, count)[i] == KindOf(i); } else { assert Stretch(0, |d|)[i] == KindOf(i); }
    }
    MaskFits(VersionOf(image), p);
  }

  lemma MaskFits(version: int, p: seq<int>)
    requires |p| == FIELD_COUNT && forall i :: 0 <= i < FIELD_COUNT ==> Fits(KindOf(i), p[i])
    ensures ParamsFit(WithCurrentMask(version, p))
  {
    var q := WithCurrentMask(version, p);
    forall i | 0 <= i < FIELD_COUNT ensures Fits(Stretch(0, |q|)[i], q[i]) {
      assert Stretch(0, |q|)[i] == KindOf(i);
    }
  }

  lemma ExtensionFits(image: seq<Byte>, p: seq<int>)
    requires |image| == EXTENSION_IMAGE_LENGTH && ParamsFit(p)
    ensures LoadExtension(image, p).Some? ==> ParamsFit(LoadExtension(image, p).value)
  {
    var count := |p| - MAIN_COUNT;
    StretchSize(MAIN_COUNT, count);
    if LoadExtension(image, p).Some? {
      var q, infrared := LoadExtension(image, p).value, Decode(Stretch(MAIN_COUNT, count), image[8..]);
      DecodeFits(Stretch(MAIN_COUNT, count), image[8..]);
      forall i | 0 <= i < FIELD_COUNT ensures Fits(Stretch(0, |q|)[i], q[i]) {
        assert Stretch(0, |q|)[i] == KindOf(i) && Stretch(0, |p|)[i] == KindOf(i);
        if i >= MAIN_COUNT {
          assert Stretch(MAIN_COUNT, count)[i - MAIN_COUNT] == KindOf(i) && q[i] == infrared[i - MAIN_COUNT];
        }
      }
    }
  }

  /** Whatever the memory holds, what loading takes from it fits its variables and is valid. */
  lemma LoadedIsSound(image: seq<Byte>, extension: seq<Byte>)
    requires |image| == IMAGE_LENGTH && |extension| == EXTENSION_IMAGE_LENGTH
    ensures var r := Load(image, extension); r.FromFram? ==> ParamsFit(r.params) && ParamsValid(r.params)
  {
    if Load(image, extension).FromFram? {
      MigratedFits(image);
      ExtensionFits(extension, Migrated(image));
    }
  }

  /** Setting one field; the two wheel radii follow each other. */
  function Assigned(p: seq<int>, i: nat, v: int): (q: seq<int>)
    requires |p| == FIELD_COUNT && i < FIELD_COUNT
    ensures |q| == FIELD_COUNT
  {
    var q := p[i := v];
    if i == WHEEL_RADIUS_MM then q[WHEEL_RADIUS_UM := v * 1000]
    else if i == WHEEL_RADIUS_UM then q[WHEEL_RADIUS_MM := v / 1000]
    else q
  }

  lemma RadiusRanges()
    ensures SpecOf(WHEEL_RADIUS_MM).lo == 1 && SpecOf(WHEEL_RADIUS_MM).hi == 1000
    ensures SpecOf(WHEEL_RADIUS_UM).lo == 1000 && SpecOf(WHEEL_RADIUS_UM).hi == 1000000
    ensures KindOf(WHEEL_RADIUS_MM) == U32 && KindOf(WHEEL_RADIUS_UM) == U32
  {
  }

  lemma AssignedFits(p: seq<int>, i: nat, v: int)
    requires ParamsFit(p) && i < FIELD_COUNT && SpecOf(i).lo <= v <= SpecOf(i).hi
    ensures ParamsFit(Assigned(p, i, v))
  {
    var q := Assigned(p, i, v);
    RadiusRanges();
    InRangeFits(i, v);
    forall k | 0 <= k < FIELD_COUNT ensures Fits(Stretch(0, |q|)[k], q[k]) {
      assert Stretch(0, |q|)[k] == KindOf(k) && Stretch(0, |p|)[k] == KindOf(k);
    }
  }

  class ConfigStore {
    const fram: array<Byte>
    var params: seq<int>
    var dirty: bool
    var loaded: bool
    var outcome: Outcome

    /** The parameters in use are always a valid configuration. */
    ghost predicate Valid()
      reads this
    {
      fram.Length == FRAM_SIZE && ParamsFit(params) && ParamsValid(params)
    }

    constructor (memory: array<Byte>)
      requires memory.Length == FRAM_SIZE
      ensures Valid() && fram == memory && params == Defaults()
    {
      fram := memory;
      params, dirty, loaded, outcome := Defaults(), false, false, NotAttempted;
      new;
      DefaultsFit();
      DefaultsValid();
    }

    function MainRecord(): (image: seq<Byte>)
      requires fram.Length == FRAM_SIZE
      reads fram
    {
      fram[..IMAGE_LENGTH]
    }

    function ExtensionRecord(): (image: seq<Byte>)
      requires fram.Length == FRAM_SIZE
      reads fram
      ensures |image| == EXTENSION_IMAGE_LENGTH
    {
      fram[EXTENSION_ADDRESS..EXTENSION_ADDRESS + EXTENSION_IMAGE_LENGTH]
    }

    method ResetDefaults()
      requires fram.Length == FRAM_SIZE
      modifies this
      ensures Valid() && params == Defaults() && dirty && !loaded && outcome == Explicit
    {
      hide ParamsValid;
      DefaultsFit();
      DefaultsValid();
      params, dirty, loaded, outcome := Defaults(), true, false, Explicit;
    }

    /** Loads from memory; anything unusable leaves the defaults in force. */
    method LoadParams(ready: bool, readOk: bool, extensionOk: bool) returns (status: Status)
      requires Valid()
      modifies this
      ensures Valid()
      ensures !ready || !readOk ==> status != Ok && params == Defaults() && outcome == IoError
      ensures ready && readOk && extensionOk ==>
                match Load(MainRecord(), ExtensionRecord())
                case FromFram(p, d) =>
                  status == Ok && params == p && dirty == d && loaded && outcome == Outcome.FromFram
                case Invalid => status == Failed && params == Defaults() && dirty && !loaded && outcome == BadImage
                case OlderLayout => status == NotModelled
      ensures ready && readOk && !extensionOk && status == Ok ==>
                Supported(VersionOf(MainRecord()), LengthOf(MainRecord())) && params == Migrated(MainRecord()) && dirty
    {
      hide ParamsValid, ParamsFit, MagicOf, VersionOf, LengthOf, Intact, Migrated, WithExtension, Supported, Older;
      ResetDefaults();
      if !ready {
        outcome := IoError;
        return NotReady;
      }
      if !readOk {
        outcome := IoError;
        return Failed;
      }
      var image := fram[..IMAGE_LENGTH];
      LoadedIsSound(image, ExtensionRecord());
      var version, length := VersionOf(image), LengthOf(image);
      if MagicOf(image) != MAGIC || (!Supported(version, length) && !Older(version, length)) || !Intact(image, length) {
        outcome := BadImage;
        return Failed;
      }
      if !Supported(version, length) { return NotModelled; }
      MigratedFits(image);
      var p := Migrated(image);
      if !ParamsValid(p) {
        outcome := BadImage;
        return Failed;
      }
      Accept(p, extensionOk, version == VERSION);
      status := Ok;
    }

    /** Takes over a valid main record, completed by the infrared record if that can be read and used. */
    method Accept(p: seq<int>, extensionOk: bool, current: bool)
      requires fram.Length == FRAM_SIZE && ParamsFit(p) && ParamsValid(p)
      modifies this
      ensures Valid() && loaded && outcome == Outcome.FromFram
      ensures extensionOk ==> WithExtension(p, ExtensionRecord(), current) == LoadResult.FromFram(params, dirty)
      ensures !extensionOk ==> params == p && dirty
    {
      hide ParamsValid, LoadExtension;
      params, dirty := p, true;
      if extensionOk {
        ExtensionFits(ExtensionRecord(), p);
        var q := LoadExtension(ExtensionRecord(), p);
        if q.Some? && ParamsValid(q.value) {
          params, dirty := q.value, !current;
        }
      }
      loaded, outcome := true, Outcome.FromFram;
    }

    /** Writes `bytes` at an address of the memory. */
    method FramWrite(at: nat, bytes: seq<Byte>)
      requires fram.Length == FRAM_SIZE && at + |bytes| <= FRAM_SIZE
      modifies fram
      ensures Written(fram[..], old(fram[..]), at, bytes)
    {
      ghost var was := fram[..];
      for i := 0 to |bytes|
        invariant Written(fram[..], was, at, bytes[..i])
      {
        ghost var before := fram[..];
        fram[at + i] := bytes[i];
        OneMoreByte(before, fram[..], was, at, bytes, i);
      }
      assert bytes[..|bytes|] == bytes;
    }

    /** Builds a sealed image in a buffer: header, fields, checksum. */
    method BuildImage(magic: Word32, version: Word16, kinds: seq<Kind>, values: seq<int>) returns (image: array<Byte>)
      requires |values| == |kinds| && TotalSize(kinds) < 0x1_0000
      ensures fresh(image) && image[..] == Image(magic, version, Encode(kinds, values))
    {
      hide Encode, TotalSize, Crc32.Checksum, Bytes4, Bytes2, Header, Written;
      var n := TotalSize(kinds);
      HeaderIsFields(magic, version, n);
      image := new Byte[n + 12];
      ghost var payload := Encode(kinds, values);
      ghost var start := image[..];
      EncodePayload([U32, U16, U16], [magic, version, n], image, 0);
      ghost var first := image[..];
      EncodePayload(kinds, values, image, 8);
      ghost var header := Header(magic, version, n);
      Extended(first, image[..], start, 0, 8, header, payload);
      WrittenFirst(image[..], start, header + payload);
      assert image[..][..8 + n] == image[..8 + n] == header + payload;
      var crc := Crc32.Compute(image, 8 + n);
      ghost var second := image[..];
      WriteField(U32, crc, image, 8 + n);
      WrittenLast(image[..], second, 8 + n, FieldBytes(U32, crc));
    }

    /** Saves the parameters, the infrared record first. */
    method Save(ready: bool, extensionOk: bool, mainOk: bool) returns (status: Status)
      requires Valid()
      modifies this`dirty, this`loaded, fram
      ensures Valid() && params == old(params)
      ensures status == Ok <==> ready && extensionOk && mainOk
      ensures status == Ok ==>
              !dirty && loaded && MainRecord() == MainImage(params) && ExtensionRecord() == ExtensionImage(params)
      ensures !ready || !extensionOk ==> fram[..] == old(fram[..]) && dirty == old(dirty)
      ensures !mainOk ==> MainRecord() == old(MainRecord())
    {
      hide ParamsValid, ParamsFit, MainImage, ExtensionImage;
      if !ready { return NotReady; }
      if !extensionOk { return Failed; }
      SaveExtension();
      if !mainOk { return Failed; }
      SaveMain();
      dirty, loaded := false, true;
      status := Ok;
    }

    method SaveExtension()
      requires Valid()
      modifies fram
      ensures Valid() && ExtensionRecord() == ExtensionImage(params) && MainRecord() == old(MainRecord())
    {
      hide ParamsValid, Encode, Image, Written;
      var infrared := InfraredPart(params);
      StretchSize(MAIN_COUNT, |infrared|);
      var image := BuildImage(EXTENSION_MAGIC, EXTENSION_VERSION, Stretch(MAIN_COUNT, |infrared|), infrared);
      ghost var was := fram[..];
      FramWrite(EXTENSION_ADDRESS, image[..]);
      ExtensionWritten(fram[..], was, image[..]);
    }

    method SaveMain()
      requires Valid()
      modifies fram
      ensures Valid() && MainRecord() == MainImage(params) && ExtensionRecord() == old(ExtensionRecord())
    {
      hide ParamsValid, Encode, Image, Written;
      var main := MainPart(params);
      StretchSize(0, |main|);
      var image := BuildImage(MAGIC, VERSION, Stretch(0, |main|), main);
      ghost var was := fram[..];
      FramWrite(0, image[..]);
      MainWritten(fram[..], was, image[..]);
    }

    /** Sets one field by its position in the table; a change that would make the configuration invalid is undone. */
    method Set(i: nat, value: int) returns (status: Status)
      requires Valid()
      modifies this`params, this`dirty
      ensures Valid()
      ensures status == Ok <==>
                i < FIELD_COUNT && SpecOf(i).lo <= value <= SpecOf(i).hi && ParamsValid(Assigned(old(params), i, value))
      ensures status == Ok ==> params == Assigned(old(params), i, value) && dirty
      ensures status != Ok ==> params == old(params) && dirty == old(dirty)
    {
      hide ParamsValid;
      if i >= FIELD_COUNT { return InvalidArg; }
      if value < SpecOf(i).lo || value > SpecOf(i).hi { return InvalidArg; }
      var saved := params;
      AssignedFits(params, i, value);
      params := params[i := value];
      if i == WHEEL_RADIUS_MM {
        params := params[WHEEL_RADIUS_UM := value * 1000];
      } else if i == WHEEL_RADIUS_UM {
        params := params[WHEEL_RADIUS_MM := value / 1000];
      }
      if !ParamsValid(params) {
        params := saved;
        return InvalidArg;
      }
      dirty := true;
      status := Ok;
    }
  }

  lemma WrittenFirst(after: seq<Byte>, before: seq<Byte>, bytes: seq<Byte>)
    requires Written(after, before, 0, bytes)
    ensures after[..|bytes|] == bytes
  {
    assert after[0..0 + |bytes|] == after[..|bytes|];
  }

  lemma WrittenLast(after: seq<Byte>, before: seq<Byte>, at: nat, bytes: seq<Byte>)
    requires Written(after, before, at, bytes) && at + |bytes| == |before|
    ensures after == before[..at] + bytes
  {
    assert after == after[..at] + after[at..at + |bytes|] + after[at + |bytes|..];
  }

  /** Writing one record leaves the other alone. */
  lemma MainWritten(after: seq<Byte>, before: seq<Byte>, image: seq<Byte>)
    requires |after| == |before| == FRAM_SIZE && |image| == IMAGE_LENGTH && Written(after, before, 0, image)
    ensures after[..IMAGE_LENGTH] == image
    ensures after[EXTENSION_ADDRESS..EXTENSION_ADDRESS + EXTENSION_IMAGE_LENGTH] ==
            before[EXTENSION_ADDRESS..EXTENSION_ADDRESS + EXTENSION_IMAGE_LENGTH]
  {
    var lo, hi := EXTENSION_ADDRESS - IMAGE_LENGTH, EXTENSION_ADDRESS + EXTENSION_IMAGE_LENGTH - IMAGE_LENGTH;
    assert after[IMAGE_LENGTH..][lo..hi] == before[IMAGE_LENGTH..][lo..hi];
  }

  lemma ExtensionWritten(after: seq<Byte>, before: seq<Byte>, image: seq<Byte>)
    requires |after| == |before| == FRAM_SIZE && |image| == EXTENSION_IMAGE_LENGTH
    requires Written(after, before, EXTENSION_ADDRESS, image)
    ensures after[EXTENSION_ADDRESS..EXTENSION_ADDRESS + EXTENSION_IMAGE_LENGTH] == image
    ensures after[..IMAGE_LENGTH] == before[..IMAGE_LENGTH]
  {
    assert after[..EXTENSION_ADDRESS][..IMAGE_LENGTH] == before[..EXTENSION_ADDRESS][..IMAGE_LENGTH];
  }

  lemma HeaderIsFields(magic: Word32, version: Word16, length: Word16)
    ensures Encode([U32, U16, U16], [magic, version, length]) == Header(magic, version, length)
    ensures TotalSize([U32, U16, U16]) == 8
  {
    var kinds, values: seq<int> := [U32, U16, U16], [magic, version, length];
    assert kinds[1..] == [U16, U16] && values[1..] == [version, length];
    assert kinds[1..][1..] == [U16] && values[1..][1..] == [length];
    assert kinds[1..][1..][1..] == [] && values[1..][1..][1..] == [];
  }
}
