/**
 * The decision logic of the camera VIN scanner: the tolerant validator, the
 * OCR candidate scan, barcode cleaning, the default camera and the guards
 * of the start and device-change buttons.  The camera, the barcode reader
 * and the OCR engine are not modelled; what they deliver is an input.
 */
module VinScanner {
  import opened Wrappers
  import opened Text
  import opened VinAlphabet

  /** The characters `[0-9A-Z]` that the cleaning keeps. */
  predicate Alnum(c: char) {
    ('0' <= c <= '9') || ('A' <= c <= 'Z')
  }

  /** `replace(/[^0-9A-Z]/g, '')`: every character outside `0-9A-Z` is deleted. */
  function KeepAlnum(s: string): (r: string)
    ensures |r| <= |s|
    ensures forall i :: 0 <= i < |r| ==> Alnum(r[i])
    ensures (forall i :: 0 <= i < |s| ==> Alnum(s[i])) ==> r == s
    decreases |s|
  {
    if s == [] then [] else (if Alnum(s[0]) then [s[0]] else []) + KeepAlnum(s[1..])
  }

  /** Deleting works character by character: it distributes over concatenation. */
  lemma {:induction false} KeepAlnumConcat(a: string, b: string)
    ensures KeepAlnum(a + b) == KeepAlnum(a) + KeepAlnum(b)
    decreases |a|
  {
    if a != [] {
      var head := if Alnum(a[0]) then [a[0]] else [];
      assert (a + b)[0] == a[0];
      assert (a + b)[1..] == a[1..] + b;
      calc {
        KeepAlnum(a + b);
        head + KeepAlnum(a[1..] + b);
        { KeepAlnumConcat(a[1..], b); }
        head + (KeepAlnum(a[1..]) + KeepAlnum(b));
        (head + KeepAlnum(a[1..])) + KeepAlnum(b);
      }
    } else {
      assert a + b == b;
    }
  }

  /** Upper-casing works character by character too. */
  lemma ToUpperConcat(a: string, b: string)
    ensures ToUpper(a + b) == ToUpper(a) + ToUpper(b)
  {
  }

  /** `toUpperCase()` followed by the deletion (lines 49 and 200). */
  function CleanVin(s: string): (r: string)
    ensures forall i :: 0 <= i < |r| ==> Alnum(r[i])
  {
    KeepAlnum(ToUpper(s))
  }

  /** `isValidVin`: the cleaned text is 17 characters of the VIN class. */
  predicate IsValidVin(vin: string) {
    var clean := CleanVin(vin);
    |clean| == 17 && AllVinChars(clean)
  }

  /** Cleaning is idempotent, so validating cleaned text is validating the original. */
  lemma CleanVinIdempotent(s: string)
    ensures CleanVin(CleanVin(s)) == CleanVin(s)
    ensures IsValidVin(CleanVin(s)) <==> IsValidVin(s)
  {
    var c := CleanVin(s);
    assert ToUpper(c) == c;
  }

  /** Cleaning works character by character: it distributes over concatenation. */
  lemma CleanVinConcat(a: string, b: string)
    ensures CleanVin(a + b) == CleanVin(a) + CleanVin(b)
  {
    ToUpperConcat(a, b);
    KeepAlnumConcat(ToUpper(a), ToUpper(b));
  }

  /** A separator (a dash, a space, anything that is not a letter or digit) is ignored. */
  lemma SeparatorIgnored(a: string, c: char, b: string)
    requires !Alnum(UpperChar(c))
    ensures CleanVin(a + [c] + b) == CleanVin(a + b)
    ensures IsValidVin(a + [c] + b) <==> IsValidVin(a + b)
  {
    assert CleanVin([c]) == [] by {
      assert ToUpper([c]) == [UpperChar(c)];
    }
    CleanVinConcat(a + [c], b);
    CleanVinConcat(a, [c]);
    CleanVinConcat(a, b);
    assert CleanVin(a + [c]) == CleanVin(a) + [];
    assert CleanVin(a) + [] == CleanVin(a);
  }

  /** Letter case is ignored: lower-case input validates as its upper-case form does. */
  lemma CaseIgnored(s: string)
    ensures CleanVin(ToLower(s)) == CleanVin(s)
    ensures IsValidVin(ToLower(s)) <==> IsValidVin(s)
  {
    assert ToUpper(ToLower(s)) == ToUpper(s);
  }

  /** Seventeen characters of the VIN class are already clean, hence valid. */
  lemma VinClassIsValid(s: string)
    requires |s| == 17 && AllVinChars(s)
    ensures CleanVin(s) == s
    ensures IsValidVin(s)
  {
    assert ToUpper(s) == s;
  }

  /**
   * `text.match(/[A-HJ-NPR-Z0-9]{17}/g)`: the runs of 17 class characters
   * found scanning left to right, each search resuming after the previous
   * match (no match gives the empty sequence where the source has `null`).
   */
  function VinMatches(text: string): (r: seq<string>)
    ensures forall k :: 0 <= k < |r| ==> |r[k]| == 17 && AllVinChars(r[k]) && Contains(text, r[k])
    decreases |text|
  {
    if |text| < 17 then []
    else if AllVinChars(text[..17]) then
      var rest := VinMatches(text[17..]);
      ContainsSuffixes(text, 17, rest);
      assert MatchAt(text, text[..17], 0);
      [text[..17]] + rest
    else
      var rest := VinMatches(text[1..]);
      ContainsSuffixes(text, 1, rest);
      rest
  }

  /** What occurs in a suffix occurs in the whole text. */
  lemma ContainsSuffixes(text: string, k: int, ps: seq<string>)
    requires 0 <= k <= |text|
    requires forall j :: 0 <= j < |ps| ==> Contains(text[k..], ps[j])
    ensures forall j :: 0 <= j < |ps| ==> Contains(text, ps[j])
  {
    forall j | 0 <= j < |ps| ensures Contains(text, ps[j]) {
      assert text == text[..k] + text[k..] + [];
      ContainsInfix(text[..k], text[k..], [], ps[j]);
    }
  }

  /** A run of 17 class characters starts at `i`. */
  predicate RunAt(text: string, i: int) {
    0 <= i && i + 17 <= |text| && AllVinChars(text[i..i + 17])
  }

  /**
   * The first match is the leftmost run: it starts where the first run
   * starts, and there are no matches exactly when there is no run.
   */
  lemma {:induction false} FirstMatchIsLeftmostRun(text: string)
    ensures VinMatches(text) == [] <==> forall i :: 0 <= i <= |text| - 17 ==> !RunAt(text, i)
    ensures VinMatches(text) != [] ==>
      exists i :: RunAt(text, i) && VinMatches(text)[0] == text[i..i + 17] &&
        forall j :: 0 <= j < i ==> !RunAt(text, j)
    decreases |text|
  {
    if |text| >= 17 && !AllVinChars(text[..17]) {
      var t := text[1..];
      FirstMatchIsLeftmostRun(t);
      assert !RunAt(text, 0) by { assert text[0..17] == text[..17]; }
      forall i | 0 <= i <= |t| - 17 ensures RunAt(t, i) <==> RunAt(text, i + 1) {
        assert t[i..i + 17] == text[i + 1..i + 18];
      }
      if VinMatches(t) != [] {
        var i :| RunAt(t, i) && VinMatches(t)[0] == t[i..i + 17] && forall j :: 0 <= j < i ==> !RunAt(t, j);
        assert VinMatches(text) == VinMatches(t);
        assert t[i..i + 17] == text[i + 1..i + 18];
        assert RunAt(text, i + 1);
        forall j | 0 <= j < i + 1 ensures !RunAt(text, j) {
          if j > 0 {
            assert !RunAt(t, j - 1);
          }
        }
      } else {
        forall i | 0 <= i <= |text| - 17 ensures !RunAt(text, i) {
          if i > 0 {
            assert !RunAt(t, i - 1);
          }
        }
      }
    } else if |text| >= 17 {
      assert RunAt(text, 0) by { assert text[0..17] == text[..17]; }
    }
  }

  /**
   * The loop of lines 160-171: the first candidate that `isValidVin` accepts
   * is reported and the loop stops; later candidates are never looked at.
   */
  method FirstValidMatch(matches: seq<string>) returns (found: Option<string>)
    ensures found.Some? ==>
      exists i :: 0 <= i < |matches| && matches[i] == found.value && IsValidVin(matches[i]) &&
        forall j :: 0 <= j < i ==> !IsValidVin(matches[j])
    ensures found.None? ==> forall i :: 0 <= i < |matches| ==> !IsValidVin(matches[i])
    ensures |matches| > 0 && IsValidVin(matches[0]) ==> found == Some(matches[0])
  {
    var k := 0;
    while k < |matches|
      invariant 0 <= k <= |matches|
      invariant forall j :: 0 <= j < k ==> !IsValidVin(matches[j])
    {
      if IsValidVin(matches[k]) {
        return Some(matches[k]);
      }
      k := k + 1;
    }
    return None;
  }

  /** Every OCR candidate passes `isValidVin`, so the first candidate is the one reported. */
  lemma CandidatesAreValid(text: string)
    ensures forall k :: 0 <= k < |VinMatches(text)| ==> IsValidVin(VinMatches(text)[k])
  {
    var ms := VinMatches(text);
    forall k | 0 <= k < |ms| ensures IsValidVin(ms[k]) {
      VinClassIsValid(ms[k]);
    }
  }

  /** A camera as the device list reports it; `name` is its `label`. */
  datatype Device = Device(deviceId: string, name: string)

  /** The `find` predicate: the lower-cased label mentions `back` or `rear`. */
  predicate IsBackCamera(d: Device) {
    Contains(ToLower(d.name), "back") || Contains(ToLower(d.name), "rear")
  }

  /** `find`: the index of the first back camera, if any. */
  function FirstBackCamera(devices: seq<Device>): (r: Option<nat>)
    ensures r.Some? ==>
      r.value < |devices| && IsBackCamera(devices[r.value]) &&
      forall j :: 0 <= j < r.value ==> !IsBackCamera(devices[j])
    ensures r.None? ==> forall j :: 0 <= j < |devices| ==> !IsBackCamera(devices[j])
    decreases |devices|
  {
    if devices == [] then None
    else if IsBackCamera(devices[0]) then Some(0)
    else
      match FirstBackCamera(devices[1..])
      case None => None
      case Some(k) => Some(k + 1)
  }

  /**
   * `backCamera?.deviceId || videoDevices[0]?.deviceId || ''`: with `||`,
   * an empty id counts as missing and the next choice is taken.
   */
  function DefaultDeviceId(devices: seq<Device>): string {
    var back := FirstBackCamera(devices);
    if back.Some? && devices[back.value].deviceId != "" then devices[back.value].deviceId
    else if |devices| > 0 then devices[0].deviceId
    else ""
  }

  /**
   * The default camera is the first back camera with a non-empty id; failing
   * that, the first device; failing that, the empty id.
   */
  lemma DefaultCameraChoice(devices: seq<Device>, i: int)
    requires 0 <= i < |devices| && IsBackCamera(devices[i])
    requires forall j :: 0 <= j < i ==> !IsBackCamera(devices[j])
    ensures devices[i].deviceId != "" ==> DefaultDeviceId(devices) == devices[i].deviceId
    ensures devices[i].deviceId == "" ==> DefaultDeviceId(devices) == devices[0].deviceId
  {
    var back := FirstBackCamera(devices);
    assert back == Some(i as nat) by {
      if back.Some? {
        assert !(back.value < i) && !(i < back.value);
      }
    }
  }

  /** Without a back camera the first device is chosen, and an empty list gives `''`. */
  lemma DefaultCameraWithoutBack(devices: seq<Device>)
    requires forall j :: 0 <= j < |devices| ==> !IsBackCamera(devices[j])
    ensures DefaultDeviceId(devices) == if |devices| > 0 then devices[0].deviceId else ""
  {
  }

  /** The chosen id is empty or the id of one of the devices. */
  lemma DefaultCameraIsListed(devices: seq<Device>)
    ensures DefaultDeviceId(devices) == "" || exists j :: 0 <= j < |devices| && devices[j].deviceId == DefaultDeviceId(devices)
  {
  }

  /** The scanner component's state. */
  class Scanner {
    var devices: seq<Device>
    var selectedDeviceId: string
    var isScanningActive: bool
    var isOcrProcessing: bool
    var cameraError: Option<string>
    var scanStatus: string
    var scanResult: Option<string>
    /** The VINs handed to `onVinDetected`, oldest first. */
    var detected: seq<string>
    /** The messages handed to `onError`, oldest first. */
    var errorsReported: seq<string>

    /** The initial state of lines 28-37. */
    constructor ()
      ensures devices == [] && selectedDeviceId == "" && !isScanningActive && !isOcrProcessing
      ensures cameraError == None && scanStatus == "Ready to scan" && scanResult == None
      ensures detected == [] && errorsReported == []
    {
      devices := [];
      selectedDeviceId := "";
      isScanningActive := false;
      isOcrProcessing := false;
      cameraError := None;
      scanStatus := "Ready to scan";
      scanResult := None;
      detected := [];
      errorsReported := [];
    }

    /**
     * Device enumeration (lines 335-372): `listed` is the device list, or
     * `None` when listing threw.  A non-empty list selects the default camera.
     */
    method InitializeDevices(listed: Option<seq<Device>>)
      modifies this
      ensures listed.Some? && |listed.value| > 0 ==>
        devices == listed.value && selectedDeviceId == DefaultDeviceId(listed.value) &&
        cameraError == old(cameraError) && scanStatus == old(scanStatus) && errorsReported == old(errorsReported)
      ensures listed.Some? && |listed.value| == 0 ==>
        devices == old(devices) && selectedDeviceId == old(selectedDeviceId) &&
        cameraError == Some("No cameras found") && scanStatus == "No cameras available" &&
        errorsReported == old(errorsReported) + ["No cameras found"]
      ensures listed.None? ==>
        devices == old(devices) && selectedDeviceId == old(selectedDeviceId) &&
        cameraError == Some("Failed to access cameras") && scanStatus == "Camera access failed" &&
        errorsReported == old(errorsReported) + ["Camera access failed"]
      ensures isScanningActive == old(isScanningActive) && isOcrProcessing == old(isOcrProcessing)
      ensures scanResult == old(scanResult) && detected == old(detected)
    {
      if listed.None? {
        cameraError := Some("Failed to access cameras");
        scanStatus := "Camera access failed";
        errorsReported := errorsReported + ["Camera access failed"];
      } else if |listed.value| > 0 {
        devices := listed.value;
        selectedDeviceId := DefaultDeviceId(listed.value);
      } else {
        cameraError := Some("No cameras found");
        scanStatus := "No cameras available";
        errorsReported := errorsReported + ["No cameras found"];
      }
    }

    /**
     * One OCR pass (lines 103-187) with `recognized` the text the OCR engine
     * returns, or `None` when recognition throws: the first valid candidate
     * is reported, otherwise the status says scanning goes on.
     */
    method ProcessOcr(recognized: Option<string>)
      modifies this
      ensures recognized.None? ==>
        scanResult == old(scanResult) && scanStatus == "OCR processing failed" && detected == old(detected)
      ensures recognized.Some? && VinMatches(recognized.value) != [] ==>
        var first := VinMatches(recognized.value)[0];
        scanResult == Some(first) && scanStatus == "VIN detected: " + first && detected == old(detected) + [first]
      ensures recognized.Some? && VinMatches(recognized.value) == [] ==>
        scanResult == old(scanResult) && scanStatus == "Scanning for text..." && detected == old(detected)
      ensures !isOcrProcessing
      ensures devices == old(devices) && selectedDeviceId == old(selectedDeviceId)
      ensures isScanningActive == old(isScanningActive) && cameraError == old(cameraError)
      ensures errorsReported == old(errorsReported)
    {
      isOcrProcessing := true;
      scanStatus := "Processing text recognition...";
      if recognized.None? {
        scanStatus := "OCR processing failed";
      } else {
        var text := recognized.value;
        var matches := VinMatches(text);
        CandidatesAreValid(text);
        if matches != [] {
          assert IsValidVin(matches[0]);
        }
        var found := FirstValidMatch(matches);
        if found.Some? {
          scanResult := found;
          scanStatus := "VIN detected: " + found.value;
          detected := detected + [found.value];
        } else {
          scanStatus := "Scanning for text...";
        }
      }
      isOcrProcessing := false;
    }

    /**
     * The barcode callback (lines 199-210) for decoded `text`: the cleaned text
     * is what is validated and what is reported.
     */
    method OnBarcode(text: string)
      modifies this
      ensures text != "" && IsValidVin(text) ==>
        scanResult == Some(CleanVin(text)) && scanStatus == "VIN detected: " + CleanVin(text) &&
        detected == old(detected) + [CleanVin(text)]
      ensures !(text != "" && IsValidVin(text)) ==>
        scanResult == old(scanResult) && scanStatus == old(scanStatus) && detected == old(detected)
      ensures devices == old(devices) && selectedDeviceId == old(selectedDeviceId)
      ensures isScanningActive == old(isScanningActive) && isOcrProcessing == old(isOcrProcessing)
      ensures cameraError == old(cameraError) && errorsReported == old(errorsReported)
    {
      if text != "" {
        var detectedText := CleanVin(text);
        CleanVinIdempotent(text);
        if IsValidVin(detectedText) {
          scanResult := Some(detectedText);
          scanStatus := "VIN detected: " + detectedText;
          detected := detected + [detectedText];
        }
      }
    }

    /**
     * The start button (lines 399-406): with a camera selected and no scan
     * running, scanning starts on that camera (`start`); with none selected,
     * the error is shown instead.
     */
    method HandleStartScan() returns (start: Option<string>)
      modifies this
      ensures selectedDeviceId == old(selectedDeviceId)
      ensures start.Some? <==> old(selectedDeviceId) != "" && !old(isScanningActive)
      ensures start.Some? ==> start.value == old(selectedDeviceId)
      ensures old(selectedDeviceId) == "" ==> cameraError == Some("No camera selected") && scanStatus == "No camera selected"
      ensures old(selectedDeviceId) != "" ==> cameraError == old(cameraError) && scanStatus == old(scanStatus)
      ensures devices == old(devices) && isScanningActive == old(isScanningActive) && isOcrProcessing == old(isOcrProcessing)
      ensures scanResult == old(scanResult) && detected == old(detected) && errorsReported == old(errorsReported)
    {
      start := None;
      if selectedDeviceId != "" && !isScanningActive {
        start := Some(selectedDeviceId);
      } else if selectedDeviceId == "" {
        cameraError := Some("No camera selected");
        scanStatus := "No camera selected";
      }
    }

    /**
     * The camera selector (lines 414-423): an empty id or the current id is
     * ignored; another id is selected and, while scanning, a restart on it
     * is scheduled (`restart`).
     */
    method HandleDeviceChange(deviceId: string) returns (restart: Option<string>)
      modifies this
      ensures deviceId != "" && deviceId != old(selectedDeviceId) ==> selectedDeviceId == deviceId
      ensures !(deviceId != "" && deviceId != old(selectedDeviceId)) ==> selectedDeviceId == old(selectedDeviceId)
      ensures restart.Some? <==> deviceId != "" && deviceId != old(selectedDeviceId) && isScanningActive
      ensures restart.Some? ==> restart.value == deviceId
      ensures devices == old(devices) && isScanningActive == old(isScanningActive) && isOcrProcessing == old(isOcrProcessing)
      ensures cameraError == old(cameraError) && scanStatus == old(scanStatus)
      ensures scanResult == old(scanResult) && detected == old(detected) && errorsReported == old(errorsReported)
    {
      restart := None;
      if deviceId != "" && deviceId != selectedDeviceId {
        selectedDeviceId := deviceId;
        if isScanningActive {
          restart := Some(deviceId);
        }
      }
    }
  }
}
