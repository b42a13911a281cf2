/**
 The parameter fixups of camera/CameraWrapper.cpp: what the framework reads, what the vendor library is
 told, and the per-camera memory of the last parameters set.
 */
module CameraFixups {
  import opened Sequences
  import opened CameraParameters

  const KEY_RECORDING_HINT := "recording-hint"
  const KEY_PREVIEW_FORMAT := "preview-format"
  const KEY_VIDEO_HFR_VALUES := "video-hfr-values"
  const KEY_VIDEO_SNAPSHOT_SUPPORTED := "video-snapshot-supported"
  const KEY_SUPPORTED_RT_HDR := "rt-hdr-values"
  const KEY_QC_VIDEO_HDR_VALUES := "video-hdr-values"
  const KEY_FLASH_MODE := "flash-mode"
  const KEY_DIS := "dis"
  const KEY_ZSL := "zsl"
  const KEY_PHASE_AF := "phase-af"
  const KEY_DYNAMIC_RANGE_CONTROL := "dynamic-range-control"
  const KEY_RT_HDR := "rt-hdr"
  const KEY_QC_VIDEO_HDR := "video-hdr"
  const KEY_PREVIEW_FPS_RANGE := "preview-fps-range"

  const ON := "on"
  const OFF := "off"
  const FLASH_MODE_TORCH := "mode-torch"
  const NV12_VENUS := "nv12-venus"
  const YUV420SP := "yuv420sp"

  const BACK_CAMERA_ID := 0
  const FRONT_CAMERA_ID := 1

  function SetTo(es: seq<Entry>, key: string, value: string): seq<Entry> {
    SetEntry(es, Some(key), Some(value))
  }

  /** strstr. */
  predicate Contains(s: string, part: string) {
    part <= s || (s != [] && Contains(s[1..], part))
  }

  ghost predicate OccursAt(s: string, part: string, i: nat) {
    i + |part| <= |s| && s[i..i + |part|] == part
  }

  /** The text contains the part exactly when it occurs somewhere in it. */
  lemma {:induction false} ContainsIff(s: string, part: string)
    ensures Contains(s, part) <==> exists i :: OccursAt(s, part, i)
  {
    if part <= s {
      assert OccursAt(s, part, 0);
    } else {
      if s != [] {
        ContainsIff(s[1..], part);
        forall i: nat | i + 1 <= |s| ensures OccursAt(s[1..], part, i) <==> OccursAt(s, part, i + 1) {
          assert i + |part| <= |s[1..]| ==> s[1..][i..i + |part|] == s[i + 1..i + 1 + |part|];
        }
      }
      assert !OccursAt(s, part, 0);
      if i: nat :| OccursAt(s, part, i) {
        assert i > 0;
        assert s != [] ==> OccursAt(s[1..], part, i - 1);
      }
      if s != [] && Contains(s[1..], part) {
        var i: nat :| OccursAt(s[1..], part, i);
        assert OccursAt(s, part, i + 1);
      }
    }
  }

  // ----- reading parameters

  /** Hide the vendor-only preview format. */
  function FixFormat(es: seq<Entry>): seq<Entry> {
    var format := GetEntry(es, KEY_PREVIEW_FORMAT);
    if format.None? || format.value == NV12_VENUS then SetTo(es, KEY_PREVIEW_FORMAT, YUV420SP) else es
  }

  /** Offer "off" among the high-frame-rate modes. */
  function FixHfr(es: seq<Entry>): seq<Entry> {
    var modes := GetEntry(es, KEY_VIDEO_HFR_VALUES);
    if modes.Some? && !Contains(modes.value, OFF) then SetTo(es, KEY_VIDEO_HFR_VALUES, OFF + "," + modes.value) else es
  }

  function FixSnapshot(es: seq<Entry>): seq<Entry> {
    if GetEntry(es, KEY_RECORDING_HINT) == Some("true") then SetTo(es, KEY_VIDEO_SNAPSHOT_SUPPORTED, "true") else es
  }

  /** Advertise video HDR modes from the vendor's real-time HDR modes. */
  function FixHdr(es: seq<Entry>): seq<Entry> {
    var modes := GetEntry(es, KEY_SUPPORTED_RT_HDR);
    if modes.Some? then SetTo(es, KEY_QC_VIDEO_HDR_VALUES, modes.value) else es
  }

  function FixGet(es: seq<Entry>): seq<Entry> {
    FixHdr(FixSnapshot(FixHfr(FixFormat(es))))
  }

  function FixedGetText(settings: string): string {
    Flatten(FixGet(Unflatten(settings)))
  }

  // ----- setting parameters

  predicate AsksTorch(es: seq<Entry>) {
    GetEntry(es, KEY_FLASH_MODE) == Some(FLASH_MODE_TORCH)
  }

  predicate IsVideo(es: seq<Entry>) {
    GetEntry(es, KEY_RECORDING_HINT) == Some("true")
  }

  function FixZsl(es: seq<Entry>, wasTorch: bool): seq<Entry> {
    if AsksTorch(es) || wasTorch then es
    else if IsVideo(es) then SetTo(SetTo(es, KEY_DIS, "disable"), KEY_ZSL, OFF)
    else SetTo(es, KEY_ZSL, ON)
  }

  function FixBack(es: seq<Entry>, id: int): seq<Entry> {
    if id == BACK_CAMERA_ID then SetTo(SetTo(es, KEY_PHASE_AF, ON), KEY_DYNAMIC_RANGE_CONTROL, ON) else es
  }

  function FixVideoHdr(es: seq<Entry>, video: bool): seq<Entry> {
    if !video then es
    else
      var mode := GetEntry(es, KEY_QC_VIDEO_HDR);
      SetTo(es, KEY_RT_HDR, if mode.Some? then mode.value else OFF)
  }

  function FixFront(es: seq<Entry>, id: int): seq<Entry> {
    if id == FRONT_CAMERA_ID then SetTo(es, KEY_PREVIEW_FPS_RANGE, "7000,30000") else es
  }

  function FixSet(id: int, es: seq<Entry>, wasTorch: bool): seq<Entry> {
    FixFront(FixVideoHdr(FixBack(FixZsl(es, wasTorch), id), IsVideo(es)), id)
  }

  // ----- keys and single settings

  lemma KeysDiffer()
    ensures KEY_PREVIEW_FORMAT != KEY_RECORDING_HINT && KEY_PREVIEW_FORMAT != KEY_VIDEO_HFR_VALUES
    ensures KEY_PREVIEW_FORMAT != KEY_VIDEO_SNAPSHOT_SUPPORTED && KEY_PREVIEW_FORMAT != KEY_QC_VIDEO_HDR_VALUES
    ensures KEY_PREVIEW_FORMAT != KEY_SUPPORTED_RT_HDR
    ensures KEY_VIDEO_HFR_VALUES != KEY_RECORDING_HINT && KEY_VIDEO_HFR_VALUES != KEY_VIDEO_SNAPSHOT_SUPPORTED
    ensures KEY_VIDEO_HFR_VALUES != KEY_QC_VIDEO_HDR_VALUES && KEY_VIDEO_HFR_VALUES != KEY_SUPPORTED_RT_HDR
    ensures KEY_VIDEO_SNAPSHOT_SUPPORTED != KEY_RECORDING_HINT && KEY_VIDEO_SNAPSHOT_SUPPORTED != KEY_QC_VIDEO_HDR_VALUES
    ensures KEY_VIDEO_SNAPSHOT_SUPPORTED != KEY_SUPPORTED_RT_HDR
    ensures KEY_QC_VIDEO_HDR_VALUES != KEY_RECORDING_HINT && KEY_QC_VIDEO_HDR_VALUES != KEY_SUPPORTED_RT_HDR
  {
    assert KEY_PREVIEW_FORMAT[0] != KEY_RECORDING_HINT[0];
    assert KEY_VIDEO_HFR_VALUES[7] != KEY_QC_VIDEO_HDR_VALUES[7];
  }

  lemma SetToValue(es: seq<Entry>, key: string, value: string, k: string)
    ensures ValueFor(SetTo(es, key, value), k) ==
            if k == key && !HasReserved(key) && !HasReserved(value) then value else ValueFor(es, k)
  {
    ValueForAfterPut(es, key, value, k);
  }

  /** Setting a key to the non-empty value it has already changes nothing. */
  lemma {:induction false} PutSame(es: seq<Entry>, key: string)
    requires Sorted(es) && ValueFor(es, key) != ""
    ensures Put(es, key, ValueFor(es, key)) == es
  {
    SortedTail(es);
    if es[0].key == key {
      assert es == [es[0]] + es[1..];
    } else {
      PutSame(es[1..], key);
      if Less(key, es[0].key) {
        forall e | e in es[1..] ensures e.key != key {
          LessTransitive(key, es[0].key, e.key);
          LessIrreflexive(key);
        }
        AbsentKey(es[1..], key);
      }
      assert es == [es[0]] + es[1..];
    }
  }

  lemma SetSame(es: seq<Entry>, key: string, value: string)
    requires Sorted(es) && value != "" && (ValueFor(es, key) == value || HasReserved(value))
    ensures SetTo(es, key, value) == es
  {
    if !HasReserved(key) && !HasReserved(value) {
      PutSame(es, key);
    }
  }

  lemma SetToKeepsWellFormed(es: seq<Entry>, key: string, value: string)
    requires WellFormed(es)
    ensures WellFormed(SetTo(es, key, value))
  {
    SetKeepsWellFormed(es, Some(key), Some(value));
  }

  lemma LiteralsAreClean()
    ensures !HasReserved(KEY_PREVIEW_FORMAT) && !HasReserved(KEY_VIDEO_HFR_VALUES)
    ensures !HasReserved(KEY_VIDEO_SNAPSHOT_SUPPORTED) && !HasReserved(KEY_QC_VIDEO_HDR_VALUES)
    ensures !HasReserved(YUV420SP) && !HasReserved("true") && YUV420SP != NV12_VENUS && YUV420SP != ""
  {
    assert YUV420SP[0] != NV12_VENUS[0];
  }

  // ----- what the framework reads

  /** What each key reads as after the fixup, in terms of the vendor's parameters alone. */
  function ExpectedGet(es: seq<Entry>, k: string): string {
    var v := ValueFor(es, k);
    if k == KEY_PREVIEW_FORMAT then
      if v == "" || v == NV12_VENUS then YUV420SP else v
    else if k == KEY_VIDEO_HFR_VALUES then
      if v == "" || Contains(v, OFF) || HasReserved(v) then v else OFF + "," + v
    else if k == KEY_VIDEO_SNAPSHOT_SUPPORTED then
      if ValueFor(es, KEY_RECORDING_HINT) == "true" then "true" else v
    else if k == KEY_QC_VIDEO_HDR_VALUES then
      var modes := ValueFor(es, KEY_SUPPORTED_RT_HDR);
      if modes == "" || HasReserved(modes) then v else modes
    else v
  }

  lemma OffPrefix(v: string)
    ensures HasReserved(OFF + "," + v) <==> HasReserved(v)
    ensures Contains(OFF + "," + v, OFF)
  {
    var s := OFF + "," + v;
    assert s[..3] == OFF;
    if HasReserved(v) {
      var i :| 0 <= i < |v| && (v[i] == '=' || v[i] == ';');
      assert s[i + 4] == v[i];
    }
  }

  lemma FixFormatValue(es: seq<Entry>, k: string)
    ensures ValueFor(FixFormat(es), k) == if k == KEY_PREVIEW_FORMAT then ExpectedGet(es, k) else ValueFor(es, k)
  {
    hide ValueFor, Contains;
    LiteralsAreClean();
    SetToValue(es, KEY_PREVIEW_FORMAT, YUV420SP, k);
  }

  lemma FixHfrValue(es: seq<Entry>, k: string)
    ensures ValueFor(FixHfr(es), k) == if k == KEY_VIDEO_HFR_VALUES then ExpectedGet(es, k) else ValueFor(es, k)
  {
    hide ValueFor, Contains;
    KeysDiffer();
    LiteralsAreClean();
    var v := ValueFor(es, KEY_VIDEO_HFR_VALUES);
    OffPrefix(v);
    SetToValue(es, KEY_VIDEO_HFR_VALUES, OFF + "," + v, k);
  }

  lemma FixSnapshotValue(es: seq<Entry>, k: string)
    ensures ValueFor(FixSnapshot(es), k) == if k == KEY_VIDEO_SNAPSHOT_SUPPORTED then ExpectedGet(es, k) else ValueFor(es, k)
  {
    hide ValueFor, Contains;
    KeysDiffer();
    LiteralsAreClean();
    SetToValue(es, KEY_VIDEO_SNAPSHOT_SUPPORTED, "true", k);
  }

  lemma FixHdrValue(es: seq<Entry>, k: string)
    ensures ValueFor(FixHdr(es), k) == if k == KEY_QC_VIDEO_HDR_VALUES then ExpectedGet(es, k) else ValueFor(es, k)
  {
    hide ValueFor, Contains;
    KeysDiffer();
    LiteralsAreClean();
    SetToValue(es, KEY_QC_VIDEO_HDR_VALUES, ValueFor(es, KEY_SUPPORTED_RT_HDR), k);
  }

  /** The fixup rewrites exactly the four keys it is about; every other key reads as before. */
  lemma FixGetValues(es: seq<Entry>, k: string)
    ensures ValueFor(FixGet(es), k) == ExpectedGet(es, k)
  {
    hide ValueFor, Contains, FixFormat, FixHfr, FixSnapshot, FixHdr;
    KeysDiffer();
    var a := FixFormat(es);
    var b := FixHfr(a);
    var c := FixSnapshot(b);
    FixFormatValue(es, k);
    FixFormatValue(es, KEY_RECORDING_HINT);
    FixFormatValue(es, KEY_SUPPORTED_RT_HDR);
    FixHfrValue(a, k);
    FixHfrValue(a, KEY_RECORDING_HINT);
    FixHfrValue(a, KEY_SUPPORTED_RT_HDR);
    FixSnapshotValue(b, k);
    FixSnapshotValue(b, KEY_SUPPORTED_RT_HDR);
    FixHdrValue(c, k);
  }

  lemma FixGetKeepsWellFormed(es: seq<Entry>)
    requires WellFormed(es)
    ensures WellFormed(FixGet(es))
  {
    var a := FixFormat(es);
    SetToKeepsWellFormed(es, KEY_PREVIEW_FORMAT, YUV420SP);
    SetToKeepsWellFormed(a, KEY_VIDEO_HFR_VALUES, OFF + "," + ValueFor(a, KEY_VIDEO_HFR_VALUES));
    var b := FixHfr(a);
    SetToKeepsWellFormed(b, KEY_VIDEO_SNAPSHOT_SUPPORTED, "true");
    var c := FixSnapshot(b);
    SetToKeepsWellFormed(c, KEY_QC_VIDEO_HDR_VALUES, ValueFor(c, KEY_SUPPORTED_RT_HDR));
  }

  /** A map that already reads as expected is left alone. */
  lemma FixGetFixedPoint(r: seq<Entry>)
    requires Sorted(r) && forall k :: ValueFor(r, k) == ExpectedGet(r, k)
    ensures FixGet(r) == r
  {
    hide Contains;
    KeysDiffer();
    LiteralsAreClean();
    assert ValueFor(r, KEY_PREVIEW_FORMAT) == ExpectedGet(r, KEY_PREVIEW_FORMAT);
    assert FixFormat(r) == r;
    var v := ValueFor(r, KEY_VIDEO_HFR_VALUES);
    assert v == ExpectedGet(r, KEY_VIDEO_HFR_VALUES);
    OffPrefix(v);
    if FixHfr(r) != r {
      SetSame(r, KEY_VIDEO_HFR_VALUES, OFF + "," + v);
    }
    assert ValueFor(r, KEY_VIDEO_SNAPSHOT_SUPPORTED) == ExpectedGet(r, KEY_VIDEO_SNAPSHOT_SUPPORTED);
    if FixSnapshot(r) != r {
      SetSame(r, KEY_VIDEO_SNAPSHOT_SUPPORTED, "true");
    }
    assert ValueFor(r, KEY_QC_VIDEO_HDR_VALUES) == ExpectedGet(r, KEY_QC_VIDEO_HDR_VALUES);
    if FixHdr(r) != r {
      SetSame(r, KEY_QC_VIDEO_HDR_VALUES, ValueFor(r, KEY_SUPPORTED_RT_HDR));
    }
  }

  lemma ExpectedIsStable(es: seq<Entry>, r: seq<Entry>, k: string)
    requires forall x :: ValueFor(r, x) == ExpectedGet(es, x)
    ensures ExpectedGet(r, k) == ExpectedGet(es, k)
  {
    hide ValueFor, Contains;
    KeysDiffer();
    LiteralsAreClean();
    OffPrefix(ValueFor(es, KEY_VIDEO_HFR_VALUES));
    assert ValueFor(r, k) == ExpectedGet(es, k);
    assert ValueFor(r, KEY_RECORDING_HINT) == ExpectedGet(es, KEY_RECORDING_HINT);
    assert ValueFor(r, KEY_SUPPORTED_RT_HDR) == ExpectedGet(es, KEY_SUPPORTED_RT_HDR);
  }

  /** camera_fixup_getparams is idempotent on every settings string, well formed or not. */
  lemma GetFixupIsIdempotent(settings: string)
    ensures FixedGetText(FixedGetText(settings)) == FixedGetText(settings)
  {
    var es := Unflatten(settings);
    var r := FixGet(es);
    UnflattenIsWellFormed(settings);
    FixGetKeepsWellFormed(es);
    UnflattenFlatten(r);
    forall k ensures ValueFor(r, k) == ExpectedGet(es, k) {
      FixGetValues(es, k);
    }
    forall k ensures ValueFor(r, k) == ExpectedGet(r, k) {
      ExpectedIsStable(es, r, k);
    }
    FixGetFixedPoint(r);
  }

  // ----- what the vendor library is told

  lemma SetKeysDiffer()
    ensures KEY_ZSL != KEY_DIS && KEY_ZSL != KEY_PHASE_AF && KEY_ZSL != KEY_DYNAMIC_RANGE_CONTROL
    ensures KEY_ZSL != KEY_RT_HDR && KEY_ZSL != KEY_PREVIEW_FPS_RANGE && KEY_ZSL != KEY_QC_VIDEO_HDR && KEY_ZSL != KEY_FLASH_MODE
    ensures KEY_DIS != KEY_PHASE_AF && KEY_DIS != KEY_DYNAMIC_RANGE_CONTROL && KEY_DIS != KEY_RT_HDR
    ensures KEY_DIS != KEY_PREVIEW_FPS_RANGE && KEY_DIS != KEY_QC_VIDEO_HDR && KEY_DIS != KEY_FLASH_MODE
    ensures KEY_PHASE_AF != KEY_DYNAMIC_RANGE_CONTROL && KEY_PHASE_AF != KEY_RT_HDR && KEY_PHASE_AF != KEY_PREVIEW_FPS_RANGE
    ensures KEY_PHASE_AF != KEY_QC_VIDEO_HDR && KEY_PHASE_AF != KEY_FLASH_MODE
    ensures KEY_DYNAMIC_RANGE_CONTROL != KEY_RT_HDR && KEY_DYNAMIC_RANGE_CONTROL != KEY_PREVIEW_FPS_RANGE
    ensures KEY_DYNAMIC_RANGE_CONTROL != KEY_QC_VIDEO_HDR && KEY_DYNAMIC_RANGE_CONTROL != KEY_FLASH_MODE
    ensures KEY_RT_HDR != KEY_PREVIEW_FPS_RANGE && KEY_RT_HDR != KEY_QC_VIDEO_HDR && KEY_RT_HDR != KEY_FLASH_MODE
    ensures KEY_PREVIEW_FPS_RANGE != KEY_QC_VIDEO_HDR && KEY_PREVIEW_FPS_RANGE != KEY_FLASH_MODE
  {
    assert KEY_ZSL[0] != KEY_DIS[0];
  }

  lemma SetKeysAreClean()
    ensures !HasReserved(KEY_ZSL) && !HasReserved(KEY_DIS) && !HasReserved(KEY_PHASE_AF)
    ensures !HasReserved(KEY_DYNAMIC_RANGE_CONTROL) && !HasReserved(KEY_RT_HDR) && !HasReserved(KEY_PREVIEW_FPS_RANGE)
  {
  }

  lemma SetValuesAreClean()
    ensures !HasReserved(ON) && !HasReserved(OFF) && !HasReserved("disable") && !HasReserved("7000,30000")
  {
  }

  /** What each key is set to, in terms of the framework's parameters, the camera, and whether the
      previous call asked for torch. */
  function ExpectedSet(id: int, es: seq<Entry>, wasTorch: bool, k: string): string {
    var v := ValueFor(es, k);
    if k == KEY_ZSL then
      if AsksTorch(es) || wasTorch then v else if IsVideo(es) then OFF else ON
    else if k == KEY_DIS then
      if !AsksTorch(es) && !wasTorch && IsVideo(es) then "disable" else v
    else if k == KEY_PHASE_AF || k == KEY_DYNAMIC_RANGE_CONTROL then
      if id == BACK_CAMERA_ID then ON else v
    else if k == KEY_RT_HDR then
      var mode := ValueFor(es, KEY_QC_VIDEO_HDR);
      if !IsVideo(es) || HasReserved(mode) then v else if mode == "" then OFF else mode
    else if k == KEY_PREVIEW_FPS_RANGE then
      if id == FRONT_CAMERA_ID then "7000,30000" else v
    else v
  }

  lemma FixZslValue(es: seq<Entry>, wasTorch: bool, k: string, id: int)
    ensures ValueFor(FixZsl(es, wasTorch), k) ==
            if k == KEY_ZSL || k == KEY_DIS then ExpectedSet(id, es, wasTorch, k) else ValueFor(es, k)
  {
    hide ValueFor;
    SetKeysDiffer();
    SetKeysAreClean();
    SetValuesAreClean();
    SetToValue(es, KEY_ZSL, ON, k);
    SetToValue(es, KEY_DIS, "disable", k);
    SetToValue(SetTo(es, KEY_DIS, "disable"), KEY_ZSL, OFF, k);
  }

  lemma FixBackValue(es: seq<Entry>, id: int, k: string)
    ensures ValueFor(FixBack(es, id), k) ==
            if id == BACK_CAMERA_ID && (k == KEY_PHASE_AF || k == KEY_DYNAMIC_RANGE_CONTROL) then ON else ValueFor(es, k)
  {
    hide ValueFor;
    SetKeysAreClean();
    SetValuesAreClean();
    SetToValue(es, KEY_PHASE_AF, ON, k);
    SetToValue(SetTo(es, KEY_PHASE_AF, ON), KEY_DYNAMIC_RANGE_CONTROL, ON, k);
  }

  lemma FixVideoHdrValue(es: seq<Entry>, video: bool, k: string)
    ensures var mode := ValueFor(es, KEY_QC_VIDEO_HDR);
            ValueFor(FixVideoHdr(es, video), k) ==
            if video && k == KEY_RT_HDR && !HasReserved(mode) then (if mode == "" then OFF else mode) else ValueFor(es, k)
  {
    hide ValueFor;
    SetKeysAreClean();
    SetValuesAreClean();
    var mode := ValueFor(es, KEY_QC_VIDEO_HDR);
    SetToValue(es, KEY_RT_HDR, if mode == "" then OFF else mode, k);
  }

  lemma FixFrontValue(es: seq<Entry>, id: int, k: string)
    ensures ValueFor(FixFront(es, id), k) ==
            if id == FRONT_CAMERA_ID && k == KEY_PREVIEW_FPS_RANGE then "7000,30000" else ValueFor(es, k)
  {
    hide ValueFor;
    SetKeysAreClean();
    SetValuesAreClean();
    SetToValue(es, KEY_PREVIEW_FPS_RANGE, "7000,30000", k);
  }

  /** The set fixup rewrites exactly the six keys it is about, each as expected. */
  lemma FixSetValues(id: int, es: seq<Entry>, wasTorch: bool, k: string)
    ensures ValueFor(FixSet(id, es, wasTorch), k) == ExpectedSet(id, es, wasTorch, k)
  {
    hide ValueFor, FixZsl, FixBack, FixVideoHdr, FixFront, HasReserved;
    SetKeysDiffer();
    var a := FixZsl(es, wasTorch);
    var b := FixBack(a, id);
    var c := FixVideoHdr(b, IsVideo(es));
    FixZslValue(es, wasTorch, k, id);
    FixZslValue(es, wasTorch, KEY_QC_VIDEO_HDR, id);
    FixBackValue(a, id, k);
    FixBackValue(a, id, KEY_QC_VIDEO_HDR);
    FixVideoHdrValue(b, IsVideo(es), k);
    FixFrontValue(c, id, k);
  }

  lemma FixSetKeepsWellFormed(id: int, es: seq<Entry>, wasTorch: bool)
    requires WellFormed(es)
    ensures WellFormed(FixSet(id, es, wasTorch))
  {
    hide WellFormed;
    SetToKeepsWellFormed(es, KEY_ZSL, ON);
    SetToKeepsWellFormed(es, KEY_DIS, "disable");
    SetToKeepsWellFormed(SetTo(es, KEY_DIS, "disable"), KEY_ZSL, OFF);
    var a := FixZsl(es, wasTorch);
    SetToKeepsWellFormed(a, KEY_PHASE_AF, ON);
    SetToKeepsWellFormed(SetTo(a, KEY_PHASE_AF, ON), KEY_DYNAMIC_RANGE_CONTROL, ON);
    var b := FixBack(a, id);
    var mode := GetEntry(b, KEY_QC_VIDEO_HDR);
    SetToKeepsWellFormed(b, KEY_RT_HDR, if mode.Some? then mode.value else OFF);
    var c := FixVideoHdr(b, IsVideo(es));
    SetToKeepsWellFormed(c, KEY_PREVIEW_FPS_RANGE, "7000,30000");
  }

  /** The fixup never changes whether torch is asked for. */
  lemma FixSetKeepsTorch(id: int, es: seq<Entry>, wasTorch: bool)
    ensures AsksTorch(FixSet(id, es, wasTorch)) == AsksTorch(es)
  {
    hide FixSet;
    SetKeysDiffer();
    FixSetValues(id, es, wasTorch, KEY_FLASH_MODE);
  }

  // ----- the wrapper and its memory

  /** The text stored for a camera, and what a set call makes of it. */
  function StoredTorch(stored: map<int, string>, id: int): bool {
    id in stored && AsksTorch(Unflatten(stored[id]))
  }

  function FixedSetText(stored: map<int, string>, id: int, settings: string): string {
    Flatten(FixSet(id, Unflatten(settings), StoredTorch(stored, id)))
  }

  class Wrapper {
    var fixedSetParams: map<int, string>

    constructor ()
      ensures fixedSetParams == map[]
    {
      fixedSetParams := map[];
    }

    /** camera_fixup_getparams. */
    method FixupGetparams(settings: string) returns (text: string)
      ensures text == FixedGetText(settings)
    {
      hide ValueFor, Contains, Unflatten, Flatten;
      KeysDiffer();
      var params := new Parameters();
      params.UnflattenText(settings);
      ghost var es := params.entries;
      var recordHint := params.Get(KEY_RECORDING_HINT);
      var videoMode := recordHint == Some("true");
      var previewFormat := params.Get(KEY_PREVIEW_FORMAT);
      if previewFormat.None? || previewFormat.value == NV12_VENUS {
        params.Set(Some(KEY_PREVIEW_FORMAT), Some(YUV420SP));
      }
      assert params.entries == FixFormat(es);
      FixFormatValue(es, KEY_RECORDING_HINT);
      FixHfrValue(params.entries, KEY_RECORDING_HINT);
      var hfrModeValues := params.Get(KEY_VIDEO_HFR_VALUES);
      if hfrModeValues.Some? && !Contains(hfrModeValues.value, OFF) {
        params.Set(Some(KEY_VIDEO_HFR_VALUES), Some(OFF + "," + hfrModeValues.value));
      }
      assert params.entries == FixHfr(FixFormat(es));
      if videoMode {
        params.Set(Some(KEY_VIDEO_SNAPSHOT_SUPPORTED), Some("true"));
      }
      assert params.entries == FixSnapshot(FixHfr(FixFormat(es)));
      var hdrValues := params.Get(KEY_SUPPORTED_RT_HDR);
      if hdrValues.Some? {
        params.Set(Some(KEY_QC_VIDEO_HDR_VALUES), hdrValues);
      }
      text := params.FlattenText();
    }

    /** The rewriting inside camera_fixup_setparams. */
    method FixupForSet(params: Parameters, id: int, wasTorch: bool)
      modifies params
      ensures params.entries == FixSet(id, old(params.entries), wasTorch)
    {
      hide ValueFor;
      ghost var es := params.entries;
      var recordingHint := params.Get(KEY_RECORDING_HINT);
      var isVideo := recordingHint == Some("true");
      var flashMode := params.Get(KEY_FLASH_MODE);
      var isTorch := flashMode == Some(FLASH_MODE_TORCH);
      if !isTorch && !wasTorch {
        if isVideo {
          params.Set(Some(KEY_DIS), Some("disable"));
          params.Set(Some(KEY_ZSL), Some(OFF));
        } else {
          params.Set(Some(KEY_ZSL), Some(ON));
        }
      }
      assert params.entries == FixZsl(es, wasTorch);
      if id == BACK_CAMERA_ID {
        params.Set(Some(KEY_PHASE_AF), Some(ON));
        params.Set(Some(KEY_DYNAMIC_RANGE_CONTROL), Some(ON));
      }
      assert params.entries == FixBack(FixZsl(es, wasTorch), id);
      if isVideo {
        var videoHdr := params.Get(KEY_QC_VIDEO_HDR);
        params.Set(Some(KEY_RT_HDR), if videoHdr.Some? then videoHdr else Some(OFF));
      }
      if id == FRONT_CAMERA_ID {
        params.Set(Some(KEY_PREVIEW_FPS_RANGE), Some("7000,30000"));
      }
    }

    /** camera_fixup_setparams: the fixed text is handed on and remembered for this camera. */
    method FixupSetparams(id: int, settings: string) returns (text: string)
      modifies this
      ensures text == FixedSetText(old(fixedSetParams), id, settings)
      ensures fixedSetParams == old(fixedSetParams)[id := text]
    {
      hide FixSet, Unflatten, Flatten;
      var params := new Parameters();
      params.UnflattenText(settings);
      var wasTorch := false;
      if id in fixedSetParams {
        var oldParams := new Parameters();
        oldParams.UnflattenText(fixedSetParams[id]);
        var oldFlashMode := oldParams.Get(KEY_FLASH_MODE);
        wasTorch := oldFlashMode == Some(FLASH_MODE_TORCH);
      }
      FixupForSet(params, id, wasTorch);
      text := params.FlattenText();
      fixedSetParams := fixedSetParams[id := text];
    }

    /** camera_device_close forgets the camera's parameters. */
    method Close(id: int)
      modifies this
      ensures fixedSetParams == old(fixedSetParams) - {id}
    {
      if id in fixedSetParams {
        fixedSetParams := fixedSetParams - {id};
      }
    }
  }

  // ----- every history of set and close calls

  datatype Call = SetCall(id: int, settings: string) | CloseCall(id: int)

  function Stored(calls: seq<Call>): map<int, string> {
    if calls == [] then map[]
    else
      var before := Stored(calls[..|calls| - 1]);
      match calls[|calls| - 1]
      case SetCall(id, settings) => before[id := FixedSetText(before, id, settings)]
      case CloseCall(id) => before - {id}
  }

  /** The settings of the last set call of a camera since it was last closed. */
  function PreviousSettings(calls: seq<Call>, id: int): Option<string> {
    if calls == [] then None
    else
      var last := calls[|calls| - 1];
      if last.id != id then PreviousSettings(calls[..|calls| - 1], id)
      else if last.SetCall? then Some(last.settings) else None
  }

  /** Call j is the latest one about this camera. */
  ghost predicate IsLatest(calls: seq<Call>, id: int, j: nat) {
    j < |calls| && calls[j].id == id && forall m :: j < m < |calls| ==> calls[m].id != id
  }

  /** The previous settings are those of the camera's latest call if that is a set call, and none else. */
  lemma {:induction false} PreviousSettingsIs(calls: seq<Call>, id: int)
    ensures forall j: nat :: IsLatest(calls, id, j) ==>
              PreviousSettings(calls, id) == if calls[j].SetCall? then Some(calls[j].settings) else None
    ensures (forall j :: 0 <= j < |calls| ==> calls[j].id != id) ==> PreviousSettings(calls, id) == None
  {
    if calls != [] {
      var m := |calls| - 1;
      PreviousSettingsIs(calls[..m], id);
      forall j: nat | IsLatest(calls, id, j)
        ensures PreviousSettings(calls, id) == if calls[j].SetCall? then Some(calls[j].settings) else None
      {
        if j < m {
          assert calls[m].id != id && calls[..m][j] == calls[j] && IsLatest(calls[..m], id, j);
        }
      }
    }
  }

  /** What the wrapper remembers about torch is what the previous set call asked for: the stored text
      parses back to the fixed map, and the fixup kept its flash mode. */
  lemma {:induction false} MemoryIsPreviousTorch(calls: seq<Call>, id: int)
    ensures StoredTorch(Stored(calls), id) <==>
            PreviousSettings(calls, id).Some? && AsksTorch(Unflatten(PreviousSettings(calls, id).value))
  {
    hide FixSet, AsksTorch;
    if calls != [] {
      var (before, last) := (calls[..|calls| - 1], calls[|calls| - 1]);
      MemoryIsPreviousTorch(before, id);
      if last.SetCall? && last.id == id {
        var es := Unflatten(last.settings);
        var wasTorch := StoredTorch(Stored(before), id);
        UnflattenIsWellFormed(last.settings);
        FixSetKeepsWellFormed(id, es, wasTorch);
        UnflattenFlatten(FixSet(id, es, wasTorch));
        FixSetKeepsTorch(id, es, wasTorch);
      }
    }
  }

  /** On every history, a set call leaves the ZSL key as the framework gave it exactly when this call or
      the previous one since the camera was opened asks for torch; otherwise it forces it by mode. */
  lemma SetCallZslRule(calls: seq<Call>, id: int, settings: string)
    ensures var (es, previous) := (Unflatten(settings), PreviousSettings(calls, id));
            var torch := AsksTorch(es) || (previous.Some? && AsksTorch(Unflatten(previous.value)));
            var result := Unflatten(FixedSetText(Stored(calls), id, settings));
            && ValueFor(result, KEY_ZSL) == (if torch then ValueFor(es, KEY_ZSL) else if IsVideo(es) then OFF else ON)
            && ValueFor(result, KEY_DIS) == (if !torch && IsVideo(es) then "disable" else ValueFor(es, KEY_DIS))
  {
    hide FixSet, AsksTorch, IsVideo, ValueFor;
    var es := Unflatten(settings);
    var wasTorch := StoredTorch(Stored(calls), id);
    MemoryIsPreviousTorch(calls, id);
    UnflattenIsWellFormed(settings);
    FixSetKeepsWellFormed(id, es, wasTorch);
    UnflattenFlatten(FixSet(id, es, wasTorch));
    SetKeysDiffer();
    FixSetValues(id, es, wasTorch, KEY_ZSL);
    FixSetValues(id, es, wasTorch, KEY_DIS);
  }

  /** The modes and keys that the rule speaks of, spelled out. */
  lemma ModesAre(es: seq<Entry>)
    ensures AsksTorch(es) <==> ValueFor(es, "flash-mode") == "mode-torch"
    ensures IsVideo(es) <==> ValueFor(es, "recording-hint") == "true"
    ensures KEY_ZSL == "zsl" && KEY_DIS == "dis" && ON == "on" && OFF == "off"
  {
  }

  /** On every history, what a set call makes of the other keys: two are switched on for the back camera,
      the frame rates are set for the front one, video mode translates "video-hdr", and the rest is kept. */
  lemma SetCallRules(calls: seq<Call>, id: int, settings: string, k: string)
    ensures var (es, r) := (Unflatten(settings), Unflatten(FixedSetText(Stored(calls), id, settings)));
            && (id == 0 ==> ValueFor(r, "phase-af") == "on" && ValueFor(r, "dynamic-range-control") == "on")
            && (id == 1 ==> ValueFor(r, "preview-fps-range") == "7000,30000")
            && (IsVideo(es) && !HasReserved(ValueFor(es, "video-hdr")) ==>
                  ValueFor(r, "rt-hdr") == if ValueFor(es, "video-hdr") == "" then "off" else ValueFor(es, "video-hdr"))
            && (k !in {"zsl", "dis", "phase-af", "dynamic-range-control", "rt-hdr", "preview-fps-range"} ==>
                  ValueFor(r, k) == ValueFor(es, k))
            && (id != 0 && k in {"phase-af", "dynamic-range-control"} ==> ValueFor(r, k) == ValueFor(es, k))
            && (id != 1 && k == "preview-fps-range" ==> ValueFor(r, k) == ValueFor(es, k))
            && (!IsVideo(es) && k in {"rt-hdr", "dis"} ==> ValueFor(r, k) == ValueFor(es, k))
  {
    hide FixSet, AsksTorch, IsVideo, ValueFor, Unflatten, Flatten, Stored, HasReserved;
    var es := Unflatten(settings);
    var wasTorch := StoredTorch(Stored(calls), id);
    UnflattenIsWellFormed(settings);
    FixSetKeepsWellFormed(id, es, wasTorch);
    UnflattenFlatten(FixSet(id, es, wasTorch));
    SetKeysDiffer();
    FixSetValues(id, es, wasTorch, KEY_PHASE_AF);
    FixSetValues(id, es, wasTorch, KEY_DYNAMIC_RANGE_CONTROL);
    FixSetValues(id, es, wasTorch, KEY_PREVIEW_FPS_RANGE);
    FixSetValues(id, es, wasTorch, KEY_RT_HDR);
    FixSetValues(id, es, wasTorch, k);
  }

  /** What the framework reads, key by key. */
  lemma GetFixupRules(settings: string, k: string)
    ensures var (es, r) := (Unflatten(settings), Unflatten(FixedGetText(settings)));
            var (format, hfr, hdr) := (ValueFor(es, "preview-format"), ValueFor(es, "video-hfr-values"), ValueFor(es, "rt-hdr-values"));
            && ValueFor(r, "preview-format") == (if format == "" || format == "nv12-venus" then "yuv420sp" else format)
            && (hfr == "" || (exists i :: OccursAt(hfr, "off", i)) ==> ValueFor(r, "video-hfr-values") == hfr)
            && (hfr != "" && !(exists i :: OccursAt(hfr, "off", i)) && !HasReserved(hfr) ==>
                  ValueFor(r, "video-hfr-values") == "off" + "," + hfr)
            && (ValueFor(es, "recording-hint") == "true" ==> ValueFor(r, "video-snapshot-supported") == "true")
            && (hdr != "" && !HasReserved(hdr) ==> ValueFor(r, "video-hdr-values") == hdr)
            && (k !in {"preview-format", "video-hfr-values", "video-snapshot-supported", "video-hdr-values"} ==>
                  ValueFor(r, k) == ValueFor(es, k))
            && (ValueFor(es, "recording-hint") != "true" && k == "video-snapshot-supported" ==> ValueFor(r, k) == ValueFor(es, k))
            && (hdr == "" && k == "video-hdr-values" ==> ValueFor(r, k) == ValueFor(es, k))
  {
    hide FixGet, ValueFor, Unflatten, Flatten, HasReserved, Contains, OccursAt;
    var es := Unflatten(settings);
    UnflattenIsWellFormed(settings);
    FixGetKeepsWellFormed(es);
    UnflattenFlatten(FixGet(es));
    KeysDiffer();
    ContainsIff(ValueFor(es, KEY_VIDEO_HFR_VALUES), OFF);
    FixGetValues(es, KEY_PREVIEW_FORMAT);
    FixGetValues(es, KEY_VIDEO_HFR_VALUES);
    FixGetValues(es, KEY_VIDEO_SNAPSHOT_SUPPORTED);
    FixGetValues(es, KEY_QC_VIDEO_HDR_VALUES);
    FixGetValues(es, k);
  }

  // ----- the public name of the torch mode

  /** FLASH_MODE_TORCH of CameraParameters, which the wrapper does not look for. */
  const PUBLIC_FLASH_MODE_TORCH := "torch"

  /** A set call with the public torch mode does not count as asking for torch: unless the previous call
      asked for "mode-torch", it has its ZSL key forced by mode. */
  lemma PublicTorchForcesZsl(calls: seq<Call>, id: int, settings: string)
    requires ValueFor(Unflatten(settings), KEY_FLASH_MODE) == PUBLIC_FLASH_MODE_TORCH
    ensures var (es, previous) := (Unflatten(settings), PreviousSettings(calls, id));
            var result := Unflatten(FixedSetText(Stored(calls), id, settings));
            ValueFor(result, KEY_ZSL) ==
            if previous.Some? && AsksTorch(Unflatten(previous.value)) then ValueFor(es, KEY_ZSL)
            else if IsVideo(es) then OFF else ON
  {
    hide Unflatten, FixedSetText, Stored, ValueFor, IsVideo;
    assert PUBLIC_FLASH_MODE_TORCH[0] != FLASH_MODE_TORCH[0];
    SetCallZslRule(calls, id, settings);
  }

  /** A first call with the public torch mode and ZSL off: ZSL is turned on. */
  lemma PublicTorchTurnsZslOn(id: int) returns (settings: string)
    ensures ValueFor(Unflatten(settings), KEY_FLASH_MODE) == PUBLIC_FLASH_MODE_TORCH
    ensures ValueFor(Unflatten(settings), KEY_ZSL) == OFF
    ensures ValueFor(Unflatten(FixedSetText(Stored([]), id, settings)), KEY_ZSL) == ON
  {
    var es := [Entry(KEY_FLASH_MODE, PUBLIC_FLASH_MODE_TORCH), Entry(KEY_ZSL, OFF)];
    assert WellFormed(es);
    UnflattenFlatten(es);
    settings := Flatten(es);
    SetKeysDiffer();
    assert ValueFor(es, KEY_FLASH_MODE) == PUBLIC_FLASH_MODE_TORCH && ValueFor(es, KEY_ZSL) == OFF;
    assert KEY_RECORDING_HINT[0] != KEY_FLASH_MODE[0] && KEY_RECORDING_HINT[0] != KEY_ZSL[0];
    AbsentKey(es, KEY_RECORDING_HINT);
    PublicTorchForcesZsl([], id, settings);
  }
}
