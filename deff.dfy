/**
 * The padding of the deff front end (src/deff.cpp:10-52): every fast file
 * name is printed padded with dots to the length of the longest name plus
 * three.  Arguments are given as their characters, without terminator
 * (what wcslen counts).
 */
module Deff {
  import opened Utility

  /** getMaxSize (deff.cpp:10-25): the length of the longest argument plus 3 for the dots. */
  method GetMaxSize(args: seq<string>) returns (size: int)
    ensures |args| == 0 ==> size == 3
    ensures forall i :: 0 <= i < |args| ==> |args[i]| + 3 <= size
    ensures |args| > 0 ==> exists i :: 0 <= i < |args| && size == |args[i]| + 3
  {
    var longest := 0;
    for i := 0 to |args|
      invariant forall j :: 0 <= j < i ==> |args[j]| <= longest
      invariant longest == 0 || exists j :: 0 <= j < i && longest == |args[j]|
    {
      var len := |args[i]|;
      if len > longest {
        longest := len;
      }
    }
    if |args| > 0 && longest == 0 {
      assert |args[0]| == 0;
    }
    size := longest + 3;
  }

  /** n dots. */
  function Dots(n: nat): (s: string)
    ensures |s| == n && forall i :: 0 <= i < n ==> s[i] == '.'
  {
    if n == 0 then [] else Dots(n - 1) + ['.']
  }

  /**
   * One turn of wmain's loop (deff.cpp:47-50): the whole buffer is set to
   * dots, then memcpy_s copies the argument over its front.  No
   * terminator is written.
   */
  method Pad(filepath: array<char>, arg: string)
    requires |arg| <= filepath.Length
    modifies filepath
    ensures filepath[..] == arg + Dots(filepath.Length - |arg|)
  {
    for k := 0 to filepath.Length
      invariant forall j :: 0 <= j < k ==> filepath[j] == '.'
    {
      filepath[k] := '.';
    }
    forall k | 0 <= k < |arg| {
      filepath[k] := arg[k];
    }
  }

  /**
   * wmain's padding (deff.cpp:36-52) for the arguments after the program
   * name: with none, only the usage line is printed; otherwise one buffer
   * of getMaxSize wide characters is refilled for each argument, and
   * `lines` are its contents as handed to fprintf.
   */
  method PadArguments(args: seq<string>) returns (lines: seq<string>)
    ensures |lines| == |args|
    ensures forall i :: 0 <= i < |args| ==>
      |lines[i]| >= |args[i]| + 3 && lines[i] == args[i] + Dots(|lines[i]| - |args[i]|)
    ensures |args| > 0 ==>
      exists j :: 0 <= j < |args| && forall i :: 0 <= i < |args| ==> |lines[i]| == |args[j]| + 3
  {
    if |args| == 0 {
      return [];
    }
    var maxSize := GetMaxSize(args);
    var filepath := new char[maxSize];
    lines := [];
    for i := 0 to |args|
      invariant |lines| == i
      invariant forall k :: 0 <= k < i ==> |lines[k]| == maxSize && lines[k] == args[k] + Dots(maxSize - |args[k]|)
    {
      Pad(filepath, args[i]);
      lines := lines + [filepath[..]];
    }
  }

  /**
   * As written, a padded line holds no terminator: the `%-*ls` of
   * deff.cpp:52 reads on past the buffer of maxSize characters.
   */
  lemma PaddedLineUnterminated(arg: string, n: nat)
    requires '\0' !in arg
    ensures '\0' !in arg + Dots(n)
    ensures UntilNul(arg + Dots(n), '\0') == arg + Dots(n)
  {
    UntilNulAt(arg + Dots(n), '\0', |arg| + n);
  }

  /**
   * The padding with the terminator it evidently needs: a buffer of
   * maxSize + 1 characters whose last one is 0, so that `%-*ls` prints
   * exactly the argument and its dots.
   */
  method PadArgumentsTerminated(args: seq<string>) returns (lines: seq<string>)
    requires forall i :: 0 <= i < |args| ==> '\0' !in args[i]
    ensures |lines| == |args|
    ensures forall i :: 0 <= i < |args| ==>
      var text := UntilNul(lines[i], '\0');
      |text| >= |args[i]| + 3 && text == args[i] + Dots(|text| - |args[i]|)
    ensures |args| > 0 ==>
      exists j :: 0 <= j < |args| && forall i :: 0 <= i < |args| ==> |UntilNul(lines[i], '\0')| == |args[j]| + 3
  {
    if |args| == 0 {
      return [];
    }
    var maxSize := GetMaxSize(args);
    var filepath := new char[maxSize + 1];
    lines := [];
    for i := 0 to |args|
      invariant |lines| == i
      invariant forall k :: 0 <= k < i ==> UntilNul(lines[k], '\0') == args[k] + Dots(maxSize - |args[k]|)
    {
      Pad(filepath, args[i]);
      filepath[maxSize] := '\0';
      TerminatedLine(filepath[..], args[i], maxSize);
      lines := lines + [filepath[..]];
    }
  }

  lemma TerminatedLine(line: string, arg: string, width: nat)
    requires '\0' !in arg && |arg| <= width && |line| == width + 1
    requires line[..width] == arg + Dots(width - |arg|) && line[width] == '\0'
    ensures UntilNul(line, '\0') == arg + Dots(width - |arg|)
  {
    UntilNulAt(line, '\0', width);
  }
}
