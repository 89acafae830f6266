/**
 * The choice of the block device an EBS volume is attached at
 * (core/src/main/java/com/netflix/priam/aws/EBSFileSystem.java, `attachVolume`).
 *
 * `NextDeviceName` is the rule the comments of `attachVolume` state: list the mounted devices
 * named `/dev/xvd*`, take the largest name, and use the letter after its last letter, with `f`
 * as the floor (letters below it are the root and ephemeral disks). The calls as written do not
 * compute that rule; `DeviceNameAsWritten` and `NextLetterAsWritten` model what they compute.
 */
module DeviceNaming {
  import opened Wrappers
  import opened JavaLang

  const DevicePrefix: string := "/dev/xvd"
  const FloorLetter: char := 'f'

  datatype NamingError =
    | NoLetterLeft                // the largest device in use is already `z`
    | ArrayIndexOutOfBounds       // `deviceNames[deviceNames.length - 1]` of an empty array
    | StringIndexOutOfBounds      // `substring(-1)`

  predicate IsLetter(c: char) { 'a' <= c <= 'z' }

  /** The device names `mount | grep '^/dev/xvd'` lists. */
  function InUse(mounted: seq<string>): (r: seq<string>)
    ensures forall d :: d in r <==> d in mounted && StartsWith(d, DevicePrefix)
  {
    if mounted == [] then []
    else (if StartsWith(mounted[0], DevicePrefix) then [mounted[0]] else []) + InUse(mounted[1..])
  }

  /**
   * The device to attach at, by the stated rule: `/dev/xvdf` when no `/dev/xvd*` device is
   * mounted or the largest one ends below `f`; otherwise the letter after its last letter.
   */
  function NextDeviceName(mounted: seq<string>): (r: Result<string, NamingError>)
    ensures r.Success? ==> exists l :: FloorLetter <= l <= 'z' && r.value == DevicePrefix + [l]
  {
    var names := InUse(mounted);
    if names == [] then Success(DevicePrefix + [FloorLetter])
    else
      var last := Largest(names);
      var c := last[|last| - 1];
      if FloorLetter <= c < 'z' then Success(DevicePrefix + [(c as int + 1) as char])
      else if c == 'z' then Failure(NoLetterLeft)
      else Success(DevicePrefix + [FloorLetter])
  }

  // ---------------------------------------------------------------------------------------
  // The rule never picks a device in use

  lemma {:induction false} LexLeAfterCommonPrefix(p: string, x: string, y: string)
    ensures LexLe(p + x, p + y) == LexLe(x, y)
    decreases |p|
  {
    if p != [] {
      var a, b := p + x, p + y;
      assert a != [] && b != [] && a[0] == b[0];
      assert a[1..] == p[1..] + x && b[1..] == p[1..] + y;
      LexLeAfterCommonPrefix(p[1..], x, y);
    } else {
      assert p + x == x && p + y == y;
    }
  }

  lemma LetterDevicesOrdered(a: char, b: char)
    ensures LexLe(DevicePrefix + [a], DevicePrefix + [b]) <==> a <= b
  {
    LexLeAfterCommonPrefix(DevicePrefix, [a], [b]);
  }

  /** Every mounted `/dev/xvd*` device is a single-letter device such as `/dev/xvdg`. */
  predicate LetterDevicesOnly(mounted: seq<string>) {
    forall d :: d in mounted && StartsWith(d, DevicePrefix) ==>
      |d| == |DevicePrefix| + 1 && IsLetter(d[|d| - 1])
  }

  /**
   * When the mounted `/dev/xvd*` devices are single-letter devices, the chosen device is not
   * one of them and lies above every one of them in the order `Arrays.sort` uses.
   */
  lemma NextDeviceIsFree(mounted: seq<string>)
    requires LetterDevicesOnly(mounted)
    ensures NextDeviceName(mounted).Success? ==> NextDeviceName(mounted).value !in mounted
    ensures NextDeviceName(mounted).Success? ==> forall d :: d in InUse(mounted) ==>
      LexLe(d, NextDeviceName(mounted).value) && d != NextDeviceName(mounted).value
  {
    var names := InUse(mounted);
    if names != [] && NextDeviceName(mounted).Success? {
      var last := Largest(names);
      var c := last[|last| - 1];
      assert last == DevicePrefix + [c] by {
        assert last[..|DevicePrefix|] == DevicePrefix;
      }
      var chosen := NextDeviceName(mounted).value;
      var l :| FloorLetter <= l <= 'z' && chosen == DevicePrefix + [l];
      assert c < l;
      LetterDevicesOrdered(c, l);
      forall d | d in names
        ensures LexLe(d, chosen) && d != chosen
      {
        var i :| 0 <= i < |names| && names[i] == d;
        LexLeTransitive(d, last, chosen);
        if d == chosen {
          LetterDevicesOrdered(l, c);
        }
      }
      assert chosen !in names;
    }
  }

  /** Of two letter devices, the larger letter is the largest name. */
  lemma LargestOfTwoLetterDevices(a: char, b: char)
    requires a < b
    ensures Largest([DevicePrefix + [a], DevicePrefix + [b]]) == DevicePrefix + [b]
  {
    LetterDevicesOrdered(b, a);
  }

  /** Two letter devices are both listed, in order. */
  lemma InUseOfTwoLetterDevices(a: char, b: char)
    ensures InUse([DevicePrefix + [a], DevicePrefix + [b]]) == [DevicePrefix + [a], DevicePrefix + [b]]
  {
    var names := [DevicePrefix + [a], DevicePrefix + [b]];
    assert names[0][..|DevicePrefix|] == DevicePrefix && names[1][..|DevicePrefix|] == DevicePrefix;
    assert names[1..] == [names[1]] && names[1..][1..] == [];
    assert InUse(names[1..]) == [names[1]];
    assert [names[0]] + [names[1]] == names;
  }

  /** With `/dev/xvdc` and `/dev/xvdd` mounted (below the floor), the floor device is chosen. */
  lemma BelowFloorUsesFloor()
    ensures NextDeviceName(["/dev/xvdc", "/dev/xvdd"]) == Success("/dev/xvdf")
  {
    assert DevicePrefix + ['c'] == "/dev/xvdc" && DevicePrefix + ['d'] == "/dev/xvdd";
    InUseOfTwoLetterDevices('c', 'd');
    LargestOfTwoLetterDevices('c', 'd');
    assert DevicePrefix + [FloorLetter] == "/dev/xvdf";
  }

  /** With `/dev/xvdf` and `/dev/xvdg` mounted, the next device is `/dev/xvdh`. */
  lemma NextAfterLargest()
    ensures NextDeviceName(["/dev/xvdf", "/dev/xvdg"]) == Success("/dev/xvdh")
  {
    assert DevicePrefix + ['f'] == "/dev/xvdf" && DevicePrefix + ['g'] == "/dev/xvdg";
    InUseOfTwoLetterDevices('f', 'g');
    LargestOfTwoLetterDevices('f', 'g');
    assert ('g' as int + 1) as char == 'h';
    assert DevicePrefix + ['h'] == "/dev/xvdh";
  }

  // ---------------------------------------------------------------------------------------
  // The calls as written

  /** `Character.getNumericValue` on the characters the device names can hold (ASCII). */
  function NumericValue(c: char): int {
    if '0' <= c <= '9' then c as int - '0' as int
    else if 'a' <= c <= 'z' then c as int - 'a' as int + 10
    else if 'A' <= c <= 'Z' then c as int - 'A' as int + 10
    else -1
  }

  /** `Character.forDigit(d, 16)`: the null character for a value that is not a hex digit. */
  function ForHexDigit(d: int): char {
    if 0 <= d < 10 then ('0' as int + d) as char
    else if 10 <= d < 16 then ('a' as int + d - 10) as char
    else '\0'
  }

  /** The letter the code would append after a last character `c` at or past the floor. */
  function NextLetterAsWritten(c: char): char {
    ForHexDigit(NumericValue(c) + 1)
  }

  /** `forDigit(getNumericValue(c) + 1, 16)` yields no letter at all for any letter from `f` on. */
  lemma NextLetterAsWrittenIsNull(c: char)
    requires FloorLetter <= c <= 'z'
    ensures NumericValue(c) >= NumericValue(FloorLetter)
    ensures NextLetterAsWritten(c) == '\0'
  {
  }

  /**
   * What `attachVolume` computes from `streamText`, the text it splits: `deviceNames` is its
   * `\n`-split, the largest name is taken, and a name with the device prefix fails at
   * `substring(-1)`.
   */
  function DeviceNameAsWritten(streamText: string): Result<string, NamingError> {
    var deviceNames := Split(streamText, '\n');
    if deviceNames == [] then Failure(ArrayIndexOutOfBounds)
    else if !StartsWith(Largest(deviceNames), DevicePrefix) then Success(DevicePrefix + [FloorLetter])
    else Failure(StringIndexOutOfBounds)
  }

  /**
   * The text split is `getOutputStream().toString()`, the description of the process's input
   * stream, not what the command printed: a single line that is not a device. The result is
   * `/dev/xvdf` whatever is mounted.
   */
  lemma AsWrittenIgnoresMounts(streamText: string)
    requires '\n' !in streamText && !StartsWith(streamText, DevicePrefix)
    ensures DeviceNameAsWritten(streamText) == Success("/dev/xvdf")
  {
    assert Largest([streamText]) == streamText;
    assert DevicePrefix + [FloorLetter] == "/dev/xvdf";
  }

  /** With `/dev/xvdf` mounted, the code as written still picks `/dev/xvdf`; the rule picks `/dev/xvdg`. */
  lemma AsWrittenPicksDeviceInUse(streamText: string)
    requires '\n' !in streamText && !StartsWith(streamText, DevicePrefix)
    ensures DeviceNameAsWritten(streamText) == Success("/dev/xvdf")
    ensures NextDeviceName(["/dev/xvdf"]) == Success("/dev/xvdg")
  {
    AsWrittenIgnoresMounts(streamText);
    assert StartsWith("/dev/xvdf", DevicePrefix);
    assert InUse(["/dev/xvdf"]) == ["/dev/xvdf"];
    assert Largest(["/dev/xvdf"]) == "/dev/xvdf";
    assert ('f' as int + 1) as char == 'g';
    assert DevicePrefix + ['g'] == "/dev/xvdg";
  }

  /** Had the command's output been read, any listed device would fail at `substring(-1)`. */
  lemma AsWrittenFailsOnListedDevice()
    ensures DeviceNameAsWritten("/dev/xvdf") == Failure(StringIndexOutOfBounds)
  {
    assert StartsWith("/dev/xvdf", DevicePrefix);
  }
}
