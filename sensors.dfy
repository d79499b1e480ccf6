/** Sensor-name selection of the plotting scripts: each requested name is
    stripped, lower-cased and has `co2` turned into `CO2`, then kept when it
    is one of the four plottable columns, in request order. */
module Sensors {
  import opened Basics

  /** The plottable columns, in the order of the plot configuration. */
  const ValidSensors: seq<string> := ["temperature", "humidity", "pressure", "CO2"]

  predicate IsValidSensor(name: string)
  {
    name in ValidSensors
  }

  /** The characters Python's `str.strip()` removes. */
  predicate IsSpace(c: char)
  {
    || c == ' ' || ('\t' <= c <= '\r') || ('\U{1c}' <= c <= '\U{1f}')
    || c == '\U{85}' || c == '\U{a0}' || c == '\U{1680}' || ('\U{2000}' <= c <= '\U{200a}')
    || c == '\U{2028}' || c == '\U{2029}' || c == '\U{202f}' || c == '\U{205f}' || c == '\U{3000}'
  }

  /** Length of the longest all-space prefix. */
  function LeadingSpaces(s: string): (n: nat)
    ensures n <= |s|
    ensures forall k :: 0 <= k < n ==> IsSpace(s[k])
    ensures n == |s| || !IsSpace(s[n])
  {
    if s != [] && IsSpace(s[0]) then 1 + LeadingSpaces(s[1..]) else 0
  }

  /** Length of the longest all-space suffix. */
  function TrailingSpaces(s: string): (n: nat)
    ensures n <= |s|
    ensures forall k :: |s| - n <= k < |s| ==> IsSpace(s[k])
    ensures n == |s| || !IsSpace(s[|s| - n - 1])
  {
    if s != [] && IsSpace(s[|s| - 1]) then 1 + TrailingSpaces(s[..|s| - 1]) else 0
  }

  /** `str.strip()`: the text between the leading and the trailing spaces. */
  function Strip(s: string): (r: string)
    ensures |r| <= |s|
    ensures r == [] || (!IsSpace(r[0]) && !IsSpace(r[|r| - 1]))
  {
    var t := s[LeadingSpaces(s)..];
    t[..|t| - TrailingSpaces(t)]
  }

  /** Stripping removes only spaces from the two ends. */
  lemma StripIsInfix(s: string)
    ensures exists i, j ::
      && 0 <= i <= j <= |s| && Strip(s) == s[i..j]
      && (forall k :: 0 <= k < i ==> IsSpace(s[k]))
      && (forall k :: j <= k < |s| ==> IsSpace(s[k]))
  {
    var i := LeadingSpaces(s);
    var t := s[i..];
    var j := i + |t| - TrailingSpaces(t);
    assert Strip(s) == s[i..j];
    assert forall k :: j <= k < |s| ==> s[k] == t[k - i];
  }

  function LowerChar(c: char): char
  {
    if 'A' <= c <= 'Z' then (c as int + 32) as char else c
  }

  /** `str.lower()` on ASCII letters: no capital is left, every other
      character is kept, and each capital becomes its small letter. */
  function Lower(s: string): (r: string)
    ensures |r| == |s|
    ensures NoUpper(r)
    ensures forall i :: 0 <= i < |s| && !('A' <= s[i] <= 'Z') ==> r[i] == s[i]
    ensures forall i :: 0 <= i < |s| && 'A' <= s[i] <= 'Z' ==> r[i] as int == s[i] as int + 32
  {
    seq(|s|, i requires 0 <= i < |s| => LowerChar(s[i]))
  }

  predicate NoUpper(s: string)
  {
    forall i :: 0 <= i < |s| ==> !('A' <= s[i] <= 'Z')
  }

  /** `s` holds `co2` starting at index `i`. */
  predicate Co2At(s: string, i: int)
  {
    0 <= i && i + 3 <= |s| && s[i] == 'c' && s[i + 1] == 'o' && s[i + 2] == '2'
  }

  /** `str.replace('co2', 'CO2')`: every occurrence, scanning left to right
      without overlap. The `c` that starts an occurrence becomes `C`, the
      `o` after it becomes `O`, and every other character is kept. */
  function ReplaceCo2(s: string): (r: string)
    ensures |r| == |s|
    ensures forall i :: 0 <= i < |s| ==> r[i] == Replaced(s, i)
  {
    if Co2At(s, 0) then
      var rest := ReplaceCo2(s[3..]);
      ReplacedAfterMatch(s, rest);
      "CO2" + rest
    else if s == [] then []
    else
      var rest := ReplaceCo2(s[1..]);
      ReplacedAfterOther(s, rest);
      [s[0]] + rest
  }

  /** The character at index `i` once the occurrences are replaced. */
  function Replaced(s: string, i: int): char
    requires 0 <= i < |s|
  {
    if Co2At(s, i) then 'C' else if Co2At(s, i - 1) then 'O' else s[i]
  }

  /** The replacement of a text that starts with `co2` is `CO2` followed
      by the replacement of the rest. */
  lemma ReplacedAfterMatch(s: string, rest: string)
    requires Co2At(s, 0) && |rest| == |s| - 3
    requires forall i :: 0 <= i < |rest| ==> rest[i] == Replaced(s[3..], i)
    ensures forall i :: 0 <= i < |s| ==> ("CO2" + rest)[i] == Replaced(s, i)
  {
    Co2AtShift(s, 3);
    forall i | 0 <= i < |s| ensures ("CO2" + rest)[i] == Replaced(s, i) {
      if i == 0 {
      } else if i == 1 {
        assert !Co2At(s, 1);
      } else if i == 2 {
        assert !Co2At(s, 1) && !Co2At(s, 2);
      } else {
        assert ("CO2" + rest)[i] == rest[i - 3] == Replaced(s[3..], i - 3);
        assert Co2At(s[3..], i - 3) <==> Co2At(s, i);
        if i == 3 {
          assert !Co2At(s, 2);
        } else {
          assert Co2At(s[3..], i - 4) <==> Co2At(s, i - 1);
        }
      }
    }
  }

  /** The replacement of a text that does not start with `co2` keeps its
      first character and replaces the rest. */
  lemma ReplacedAfterOther(s: string, rest: string)
    requires s != [] && !Co2At(s, 0) && |rest| == |s| - 1
    requires forall i :: 0 <= i < |rest| ==> rest[i] == Replaced(s[1..], i)
    ensures forall i :: 0 <= i < |s| ==> ([s[0]] + rest)[i] == Replaced(s, i)
  {
    Co2AtShift(s, 1);
    forall i | 0 <= i < |s| ensures ([s[0]] + rest)[i] == Replaced(s, i) {
      if i > 0 {
        assert ([s[0]] + rest)[i] == rest[i - 1] == Replaced(s[1..], i - 1);
        assert Co2At(s[1..], i - 1) <==> Co2At(s, i);
        if i > 1 {
          assert Co2At(s[1..], i - 2) <==> Co2At(s, i - 1);
        }
      }
    }
  }

  /** An occurrence in a suffix is an occurrence in the whole text. */
  lemma Co2AtShift(s: string, k: nat)
    requires k <= |s|
    ensures forall j {:trigger Co2At(s[k..], j)} :: 0 <= j ==> (Co2At(s[k..], j) <==> Co2At(s, j + k))
  {
    forall j | 0 <= j ensures Co2At(s[k..], j) <==> Co2At(s, j + k) {
      if j + 3 <= |s| - k {
        assert s[k..][j] == s[j + k] && s[k..][j + 1] == s[j + k + 1] && s[k..][j + 2] == s[j + k + 2];
      }
    }
  }

  /** No `co2` survives the replacement. */
  lemma {:induction false} ReplaceCo2LeavesNone(s: string)
    ensures forall i :: !Co2At(ReplaceCo2(s), i)
  {
    var r := ReplaceCo2(s);
    if Co2At(s, 0) {
      var rest := ReplaceCo2(s[3..]);
      ReplaceCo2LeavesNone(s[3..]);
      forall i ensures !Co2At(r, i) {
        if 3 <= i {
          assert !Co2At(rest, i - 3);
        }
      }
    } else if s != [] {
      var rest := ReplaceCo2(s[1..]);
      ReplaceCo2LeavesNone(s[1..]);
      forall i ensures !Co2At(r, i) {
        if 1 <= i {
          assert !Co2At(rest, i - 1);
        }
      }
    }
  }

  /** Without a `c` there is nothing to replace. */
  lemma {:induction false} ReplaceCo2WithoutC(s: string)
    requires forall i :: 0 <= i < |s| ==> s[i] != 'c'
    ensures ReplaceCo2(s) == s
  {
    if s != [] {
      ReplaceCo2WithoutC(s[1..]);
      assert s == [s[0]] + s[1..];
    }
  }

  /** The name a requested sensor is compared under. */
  function Normalize(s: string): (r: string)
    ensures |r| <= |s|
  {
    ReplaceCo2(Lower(Strip(s)))
  }

  /** The column names as they are matched, ignoring case. */
  const LowerSensors: seq<string> := ["temperature", "humidity", "pressure", "co2"]

  lemma LowerOfReplace(x: string)
    requires NoUpper(x)
    ensures Lower(ReplaceCo2(x)) == x
  {
  }

  lemma LowerOfValid(r: string)
    requires IsValidSensor(r)
    ensures Lower(r) in LowerSensors
  {
    if r == "CO2" {
      assert Lower(r) == "co2";
    } else {
      assert Lower(r) == r;
    }
  }

  lemma ReplaceOfLowerSensor(x: string)
    requires x in LowerSensors
    ensures IsValidSensor(ReplaceCo2(x))
  {
    if x == "co2" {
      assert Co2At(x, 0);
      assert ReplaceCo2(x) == "CO2" + ReplaceCo2([]) == ValidSensors[3];
    } else {
      ReplaceCo2WithoutC(x);
    }
  }

  /** A requested name is accepted exactly when, stripped, it equals one of
      the four column names ignoring ASCII case. */
  lemma NormalizeAccepts(s: string)
    ensures IsValidSensor(Normalize(s)) <==> Lower(Strip(s)) in LowerSensors
  {
    var x := Lower(Strip(s));
    if IsValidSensor(ReplaceCo2(x)) {
      LowerOfReplace(x);
      LowerOfValid(ReplaceCo2(x));
    }
    if x in LowerSensors {
      ReplaceOfLowerSensor(x);
    }
  }

  /** The `sensors` argument: one string, or a tuple of strings when the
      command line gave a comma-separated list. */
  datatype SensorArg = One(text: string) | Many(items: seq<string>)

  function NormalizeAll(items: seq<string>): (r: seq<string>)
    ensures |r| == |items|
    ensures forall i :: 0 <= i < |items| ==> r[i] == Normalize(items[i])
  {
    seq(|items|, i requires 0 <= i < |items| => Normalize(items[i]))
  }

  /** The requested names when a single string is first wrapped in a list. */
  function RequestedSensors(arg: SensorArg): seq<string>
  {
    match arg
    case One(text) => NormalizeAll([text])
    case Many(items) => NormalizeAll(items)
  }

  /** The requested names when the argument is iterated as it stands: a
      single string yields its characters, one name each. */
  function IteratedSensors(arg: SensorArg): seq<string>
  {
    match arg
    case One(text) => NormalizeAll(seq(|text|, i requires 0 <= i < |text| => [text[i]]))
    case Many(items) => NormalizeAll(items)
  }

  /** The validation loop: appends every requested name that is valid. */
  method SelectSensors(requested: seq<string>) returns (selected: seq<string>)
    ensures selected == Select(requested, IsValidSensor)
  {
    selected := [];
    for i := 0 to |requested|
      invariant selected == Select(requested[..i], IsValidSensor)
    {
      SelectSnoc(requested[..i], requested[i], IsValidSensor);
      assert requested[..i + 1] == requested[..i] + [requested[i]];
      if requested[i] in ValidSensors {
        selected := selected + [requested[i]];
      }
    }
    assert requested[..|requested|] == requested;
  }

  /** The selection keeps exactly the valid requested names, each in the
      position order of the request. */
  lemma SelectionKeepsValidInOrder(requested: seq<string>)
    ensures forall name :: name in Select(requested, IsValidSensor) <==> name in requested && name in ValidSensors
    ensures Subsequence(Select(requested, IsValidSensor), requested)
  {
    SelectIsSubsequence(requested, IsValidSensor);
  }

  /** The default `"CO2"` wrapped in a list selects the CO2 column. */
  lemma DefaultSensorWrapped()
    ensures Select(RequestedSensors(One("CO2")), IsValidSensor) == ["CO2"]
  {
    var s := Strip("CO2");
    assert LeadingSpaces("CO2") == 0;
    assert TrailingSpaces("CO2") == 0;
    assert s == "CO2";
    assert Lower(s) == "co2";
    assert Co2At(Lower(s), 0);
    assert Normalize("CO2") == "CO2" + ReplaceCo2([]);
    assert NormalizeAll(["CO2"])[0] == "CO2";
    SelectSnoc([], "CO2", IsValidSensor);
    assert [] + ["CO2"] == ["CO2"];
  }

  /** A single string iterated as it stands never selects anything: every
      one-character name is shorter than every column name. */
  lemma IteratedStringSelectsNothing(text: string)
    ensures Select(IteratedSensors(One(text)), IsValidSensor) == []
  {
    var chars := seq(|text|, i requires 0 <= i < |text| => [text[i]]);
    var names := NormalizeAll(chars);
    assert IteratedSensors(One(text)) == names;
    forall name | name in names ensures !IsValidSensor(name) {
      var i :| 0 <= i < |names| && names[i] == name;
      assert |chars[i]| == 1;
      ShortNameInvalid(name);
    }
    SelectNone(names, IsValidSensor);
  }

  lemma ShortNameInvalid(name: string)
    requires |name| < 3
    ensures !IsValidSensor(name)
  {
  }
}
