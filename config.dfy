/**
 * The client's configuration file: one `key=value` line per entry. Saving
 * writes the entries of a dictionary in order; loading reads the file line by
 * line, strips each line of surrounding whitespace and splits it at its first
 * `=`. The file itself is left out: saving produces its text and loading
 * consumes it (None when the file does not exist).
 */
module Config {

  datatype Option<T> = None | Some(value: T)

  /** A dictionary with its insertion order: a list of (key, value) entries. */
  type Dict = seq<(string, string)>

  // ----- Characters -----

  /** The characters Python's str.strip() removes (str.isspace). */
  predicate IsSpace(c: char) {
    || c == ' '
    || '\t' <= c <= '\r'
    || '\U{1c}' <= c <= '\U{1f}'
    || c == '\U{85}' || c == '\U{a0}' || c == '\U{1680}'
    || '\U{2000}' <= c <= '\U{200a}'
    || c == '\U{2028}' || c == '\U{2029}' || c == '\U{202f}' || c == '\U{205f}' || c == '\U{3000}'
  }

  /** The line ends a text-mode file recognises when read: `\n`, `\r` and
      the pair `\r\n`. */
  predicate IsLineBreak(c: char) {
    c == '\n' || c == '\r'
  }

  predicate NoLineBreak(s: string) {
    forall i :: 0 <= i < |s| ==> !IsLineBreak(s[i])
  }

  // ----- Reading lines -----

  /** The length of the first line of s: everything up to its first line break. */
  function LineLength(s: string): (n: nat)
    ensures n <= |s|
    ensures forall i :: 0 <= i < n ==> !IsLineBreak(s[i])
    ensures n < |s| ==> IsLineBreak(s[n])
  {
    if s == [] || IsLineBreak(s[0]) then 0 else 1 + LineLength(s[1..])
  }

  /** The lines of a file's text, without their line ends. A last line
      without a line end is still a line; nothing follows the last line end. */
  function Lines(text: string): (lines: seq<string>)
    ensures forall i :: 0 <= i < |lines| ==> NoLineBreak(lines[i])
    decreases |text|
  {
    if text == [] then []
    else
      var n := LineLength(text);
      var rest :=
        if n == |text| then []
        else if text[n] == '\r' && n + 1 < |text| && text[n + 1] == '\n' then text[n + 2..]
        else text[n + 1..];
      [text[..n]] + Lines(rest)
  }

  /** A line end that ends exactly the line before it: `\n`, `\r\n`, or a
      `\r` that is not the first half of a `\r\n`. */
  predicate EndsLine(end: string, rest: string) {
    end == "\n" || end == "\r\n" || (end == "\r" && (rest == [] || rest[0] != '\n'))
  }

  /** A text that starts with a line and its line end reads as that line
      followed by the lines of the rest. */
  lemma LinesOfFirstLine(line: string, end: string, rest: string)
    requires NoLineBreak(line)
    requires EndsLine(end, rest)
    ensures Lines(line + end + rest) == [line] + Lines(rest)
  {
    var text := line + end + rest;
    var n := LineLength(text);
    assert text[|line|] == end[0];
    assert n == |line|;
    assert text[..n] == line;
    if end == "\r\n" {
      assert text[n + 1] == '\n';
      assert text[n + 2..] == rest;
    } else {
      assert text[n + 1..] == rest;
    }
  }

  /** A last line without a line end is still a line. */
  lemma LinesOfLastLine(line: string)
    requires line != [] && NoLineBreak(line)
    ensures Lines(line) == [line]
  {
    assert LineLength(line) == |line|;
    assert line[..|line|] == line;
  }

  // ----- Parsing one line -----

  /** The number of whitespace characters at the start of s. */
  function LeadingSpace(s: string): (n: nat)
    ensures n <= |s|
    ensures forall i :: 0 <= i < n ==> IsSpace(s[i])
    ensures n < |s| ==> !IsSpace(s[n])
  {
    if s == [] || !IsSpace(s[0]) then 0 else 1 + LeadingSpace(s[1..])
  }

  /** The length of s without the whitespace at its end. */
  function TrailingSpaceStart(s: string): (n: nat)
    ensures n <= |s|
    ensures forall i :: n <= i < |s| ==> IsSpace(s[i])
    ensures 0 < n ==> !IsSpace(s[n - 1])
  {
    if s == [] || !IsSpace(s[|s| - 1]) then |s| else TrailingSpaceStart(s[..|s| - 1])
  }

  /** str.strip(): s without the whitespace at both of its ends. */
  function Strip(s: string): (r: string)
    ensures r == [] || (!IsSpace(r[0]) && !IsSpace(r[|r| - 1]))
    ensures s == [] || (!IsSpace(s[0]) && !IsSpace(s[|s| - 1])) ==> r == s
  {
    var e := TrailingSpaceStart(s);
    var b := LeadingSpace(s[..e]);
    assert s[b..e] == s[..e][b..];
    s[b..e]
  }

  /** Stripping removes whitespace at the ends and nothing else. */
  lemma StripRemovesOnlySpace(s: string)
    ensures exists b, e :: 0 <= b <= e <= |s| && Strip(s) == s[b..e] &&
                           (forall i :: 0 <= i < b ==> IsSpace(s[i])) &&
                           (forall i :: e <= i < |s| ==> IsSpace(s[i]))
  {
    var e := TrailingSpaceStart(s);
    var b := LeadingSpace(s[..e]);
    assert Strip(s) == s[b..e];
  }

  /** The index of the first occurrence of c in s, or |s| when there is none. */
  function FirstIndex(s: string, c: char): (i: nat)
    ensures i <= |s|
    ensures forall j :: 0 <= j < i ==> s[j] != c
    ensures i < |s| ==> s[i] == c
  {
    if s == [] || s[0] == c then 0 else 1 + FirstIndex(s[1..], c)
  }

  /** `key, value = line.strip().split("=", 1)`: the stripped line split at
      its first `=`, or None (the unpacking error) when it has none. */
  function ParseLine(line: string): Option<(string, string)> {
    var s := Strip(line);
    var i := FirstIndex(s, '=');
    if i == |s| then None else Some((s[..i], s[i + 1..]))
  }

  /** Whether the stripped line has an `=` to split at. */
  predicate HasSeparator(line: string) {
    '=' in Strip(line)
  }

  /** A line fails to parse exactly when its stripped text has no `=`. */
  lemma ParseLineFailsWithoutSeparator(line: string)
    ensures ParseLine(line).None? <==> !HasSeparator(line)
  {
    var s := Strip(line);
    if FirstIndex(s, '=') == |s| {
      assert s[..|s|] == s;
    }
  }

  /** A line that parses is split at the first `=` of its stripped text: the
      key is everything before it and the value everything after. */
  lemma ParseLineSplitsAtFirstSeparator(line: string)
    requires ParseLine(line).Some?
    ensures var (key, value) := ParseLine(line).value;
            Strip(line) == key + "=" + value && '=' !in key
  {
    var s := Strip(line);
    var i := FirstIndex(s, '=');
    assert s == s[..i] + "=" + s[i + 1..];
  }

  // ----- The dictionary -----

  /** What a Python dictionary guarantees: no key occurs twice. */
  predicate DistinctKeys(d: Dict) {
    forall i, j :: 0 <= i < j < |d| ==> d[i].0 != d[j].0
  }

  /** The position of key k in d, or |d| when k is not a key. */
  function KeyIndex(d: Dict, k: string): (i: nat)
    ensures i <= |d|
    ensures forall j :: 0 <= j < i ==> d[j].0 != k
    ensures i < |d| ==> d[i].0 == k
  {
    if d == [] || d[0].0 == k then 0 else 1 + KeyIndex(d[1..], k)
  }

  lemma KeyIndexUnique(d: Dict, k: string, i: nat)
    requires i <= |d|
    requires forall j :: 0 <= j < i ==> d[j].0 != k
    requires i < |d| ==> d[i].0 == k
    ensures KeyIndex(d, k) == i
  {
  }

  /** `k in d` */
  predicate HasKey(d: Dict, k: string) {
    KeyIndex(d, k) < |d|
  }

  /** `d[k]`, or None when k is not a key. */
  function Lookup(d: Dict, k: string): (r: Option<string>)
    ensures r.Some? <==> HasKey(d, k)
  {
    var i := KeyIndex(d, k);
    if i == |d| then None else Some(d[i].1)
  }

  /** With distinct keys, looking up k gives v exactly when (k, v) is an entry. */
  lemma LookupFindsEntry(d: Dict, k: string, v: string)
    requires DistinctKeys(d)
    ensures Lookup(d, k) == Some(v) <==> (k, v) in d
  {
    if (k, v) in d {
      var i :| 0 <= i < |d| && d[i] == (k, v);
      KeyIndexUnique(d, k, i);
    }
  }

  /** `d[k] = v`: a new key goes at the end, an existing key keeps its place
      and takes the new value. */
  function Assign(d: Dict, k: string, v: string): (r: Dict)
    requires DistinctKeys(d)
    ensures DistinctKeys(r)
    ensures Lookup(r, k) == Some(v)
    ensures !HasKey(d, k) ==> r == d + [(k, v)]
  {
    var i := KeyIndex(d, k);
    var r := if i == |d| then d + [(k, v)] else d[i := (k, v)];
    KeyIndexUnique(r, k, i);
    r
  }

  /** Assigning k leaves the value of every other key alone, and an existing
      key keeps its position: the keys, in order, stay the same. */
  lemma AssignFrame(d: Dict, k: string, v: string)
    requires DistinctKeys(d)
    ensures forall k' :: k' != k ==> Lookup(Assign(d, k, v), k') == Lookup(d, k')
    ensures HasKey(d, k) ==> |Assign(d, k, v)| == |d| &&
                             forall i :: 0 <= i < |d| ==> Assign(d, k, v)[i].0 == d[i].0
  {
    var r := Assign(d, k, v);
    forall k' | k' != k
      ensures Lookup(r, k') == Lookup(d, k')
    {
      var j := KeyIndex(d, k');
      KeyIndexUnique(r, k', if j < |d| then j else |r|);
    }
  }

  // ----- Loading -----

  /** The dictionary built by assigning the parsed lines in order, or None
      as soon as one of them failed to parse. */
  function Collect(parsed: seq<Option<(string, string)>>): (r: Option<Dict>)
    ensures r.Some? ==> DistinctKeys(r.value)
  {
    if parsed == [] then Some([])
    else
      var front := parsed[..|parsed| - 1];
      match Collect(front)
      case None => None
      case Some(config) =>
        match parsed[|parsed| - 1]
        case None => None
        case Some((key, value)) => Some(Assign(config, key, value))
  }

  /** Collecting succeeds exactly when every line parsed. */
  lemma {:induction false} CollectSucceeds(parsed: seq<Option<(string, string)>>)
    ensures Collect(parsed).Some? <==> forall i :: 0 <= i < |parsed| ==> parsed[i].Some?
  {
    if parsed != [] {
      var front := parsed[..|parsed| - 1];
      assert forall i :: 0 <= i < |front| ==> front[i] == parsed[i];
      CollectSucceeds(front);
    }
  }

  /** One line that fails to parse makes the whole load fail. */
  lemma CollectFailsAt(parsed: seq<Option<(string, string)>>, i: nat)
    requires i < |parsed| && parsed[i].None?
    ensures Collect(parsed).None?
  {
    CollectSucceeds(parsed);
  }

  /** Collecting one more parsed line assigns its entry. */
  lemma CollectStep(parsed: seq<Option<(string, string)>>, i: nat, config: Dict)
    requires i < |parsed| && parsed[i].Some?
    requires Collect(parsed[..i]) == Some(config)
    ensures Collect(parsed[..i + 1]) == Some(Assign(config, parsed[i].value.0, parsed[i].value.1))
  {
    assert parsed[..i + 1][..i] == parsed[..i];
  }

  function ParseAll(lines: seq<string>): (parsed: seq<Option<(string, string)>>)
    ensures |parsed| == |lines|
    ensures forall i :: 0 <= i < |lines| ==> parsed[i] == ParseLine(lines[i])
  {
    seq(|lines|, i requires 0 <= i < |lines| => ParseLine(lines[i]))
  }

  /** The dictionary the loading loop builds from the lines, or None when a
      line has no `=`. */
  function ParseLines(lines: seq<string>): Option<Dict> {
    Collect(ParseAll(lines))
  }

  /** `load_config()` on the file's text, None standing for a missing file. */
  function Load(file: Option<string>): Option<Dict> {
    match file
    case None => Some([])
    case Some(text) => ParseLines(Lines(text))
  }

  method LoadConfig(file: Option<string>) returns (r: Option<Dict>)
    ensures r == Load(file)
  {
    if file.None? {
      return Some([]);
    }
    var lines := Lines(file.value);
    ghost var parsed := ParseAll(lines);
    var config: Dict := [];
    for i := 0 to |lines|
      invariant Collect(parsed[..i]) == Some(config)
    {
      var entry := ParseLine(lines[i]);
      assert entry == parsed[i];
      if entry.None? {
        CollectFailsAt(parsed, i);
        return None;
      }
      CollectStep(parsed, i, config);
      config := Assign(config, entry.value.0, entry.value.1);
    }
    assert parsed[..|lines|] == parsed;
    r := Some(config);
  }

  // ----- Saving -----

  function Line(k: string, v: string): string {
    k + "=" + v
  }

  /** The text `save_config` writes: each entry in order as `key=value\n`. */
  function Serialize(d: Dict): string {
    if d == [] then "" else Line(d[0].0, d[0].1) + "\n" + Serialize(d[1..])
  }

  lemma {:induction false} SerializeAppend(d: Dict, k: string, v: string)
    ensures Serialize(d + [(k, v)]) == Serialize(d) + Line(k, v) + "\n"
  {
    if d != [] {
      assert (d + [(k, v)])[1..] == d[1..] + [(k, v)];
      SerializeAppend(d[1..], k, v);
    }
  }

  method SaveConfig(config: Dict) returns (text: string)
    ensures text == Serialize(config)
  {
    text := "";
    for i := 0 to |config|
      invariant text == Serialize(config[..i])
    {
      var (key, value) := config[i];
      SerializeAppend(config[..i], key, value);
      assert config[..i + 1] == config[..i] + [(key, value)];
      text := text + Line(key, value) + "\n";
    }
    assert config[..|config|] == config;
  }

  // ----- Properties -----

  /** What an entry must look like to survive saving and loading: the key has
      no `=` (the split is at the first one) and does not start with
      whitespace, the value does not end with whitespace (the line is
      stripped), and neither contains a line break. */
  predicate Savable(k: string, v: string) {
    && '=' !in k
    && NoLineBreak(k) && NoLineBreak(v)
    && (k == [] || !IsSpace(k[0]))
    && (v == [] || !IsSpace(v[|v| - 1]))
  }

  lemma ParseSavedLine(k: string, v: string)
    requires Savable(k, v)
    ensures ParseLine(Line(k, v)) == Some((k, v))
  {
    var s := Line(k, v);
    assert s[0] == if k == [] then '=' else k[0];
    assert s[|s| - 1] == if v == [] then '=' else v[|v| - 1];
    assert Strip(s) == s;
    var i := FirstIndex(s, '=');
    assert s[|k|] == '=';
    assert i == |k|;
    assert s[..i] == k && s[i + 1..] == v;
  }

  function SavedLines(d: Dict): (lines: seq<string>) {
    seq(|d|, i requires 0 <= i < |d| => Line(d[i].0, d[i].1))
  }

  /** A savable entry is written on a line of its own. */
  lemma SavedLineHasNoBreak(k: string, v: string)
    requires Savable(k, v)
    ensures NoLineBreak(Line(k, v))
  {
    var line := Line(k, v);
    forall i | 0 <= i < |line|
      ensures !IsLineBreak(line[i])
    {
      if i < |k| {
        assert line[i] == k[i];
      } else if i > |k| {
        assert line[i] == v[i - |k| - 1];
      }
    }
  }

  /** Reading the saved text back gives one line per entry, in order. */
  lemma {:induction false} LinesOfSerialized(d: Dict)
    requires forall i :: 0 <= i < |d| ==> Savable(d[i].0, d[i].1)
    ensures Lines(Serialize(d)) == SavedLines(d)
  {
    if d != [] {
      var line := Line(d[0].0, d[0].1);
      var rest := d[1..];
      assert Lines(Serialize(rest)) == SavedLines(rest) by {
        assert forall i :: 0 <= i < |rest| ==> rest[i] == d[i + 1];
        LinesOfSerialized(rest);
      }
      assert Lines(Serialize(d)) == [line] + Lines(Serialize(rest)) by {
        SavedLineHasNoBreak(d[0].0, d[0].1);
        LinesOfFirstLine(line, "\n", Serialize(rest));
      }
      SavedLinesFirst(d);
    }
  }

  lemma SavedLinesFirst(d: Dict)
    requires d != []
    ensures SavedLines(d) == [Line(d[0].0, d[0].1)] + SavedLines(d[1..])
  {
  }

  lemma FrontAndLast<T>(s: seq<T>)
    requires s != []
    ensures s[..|s| - 1] + [s[|s| - 1]] == s
  {
  }

  /** Dropping the last entry keeps the keys distinct, and the dropped key
      is not among those left. */
  lemma DistinctFront(d: Dict)
    requires DistinctKeys(d) && d != []
    ensures DistinctKeys(d[..|d| - 1])
    ensures !HasKey(d[..|d| - 1], d[|d| - 1].0)
  {
    var front := d[..|d| - 1];
    assert forall i :: 0 <= i < |front| ==> front[i] == d[i];
  }

  /** A last line with a key not yet loaded appends its entry. */
  lemma CollectNewLast(parsed: seq<Option<(string, string)>>, config: Dict, k: string, v: string)
    requires parsed != [] && parsed[|parsed| - 1] == Some((k, v))
    requires Collect(parsed[..|parsed| - 1]) == Some(config)
    requires !HasKey(config, k)
    ensures Collect(parsed) == Some(config + [(k, v)])
  {
  }

  lemma {:induction false} CollectDistinctEntries(parsed: seq<Option<(string, string)>>, d: Dict)
    requires DistinctKeys(d)
    requires |parsed| == |d| && forall i :: 0 <= i < |d| ==> parsed[i] == Some(d[i])
    ensures Collect(parsed) == Some(d)
  {
    if d != [] {
      var n := |d|;
      var front := d[..n - 1];
      var k, v := d[n - 1].0, d[n - 1].1;
      DistinctFront(d);
      assert Collect(parsed[..n - 1]) == Some(front) by {
        assert forall i :: 0 <= i < |front| ==> parsed[..n - 1][i] == Some(front[i]);
        CollectDistinctEntries(parsed[..n - 1], front);
      }
      CollectNewLast(parsed, front, k, v);
      FrontAndLast(d);
    }
  }

  lemma {:induction false} ParseSavedLines(d: Dict)
    requires DistinctKeys(d)
    requires forall i :: 0 <= i < |d| ==> Savable(d[i].0, d[i].1)
    ensures ParseLines(SavedLines(d)) == Some(d)
  {
    var lines := SavedLines(d);
    forall i | 0 <= i < |d|
      ensures ParseLine(lines[i]) == Some(d[i])
    {
      ParseSavedLine(d[i].0, d[i].1);
    }
    CollectDistinctEntries(ParseAll(lines), d);
  }

  /** Loading what was saved gives back the same dictionary, in the same
      order, when every entry is savable. */
  lemma {:induction false} LoadSaveRoundTrip(d: Dict)
    requires DistinctKeys(d)
    requires forall i :: 0 <= i < |d| ==> Savable(d[i].0, d[i].1)
    ensures Load(Some(Serialize(d))) == Some(d)
  {
    LinesOfSerialized(d);
    ParseSavedLines(d);
  }

  lemma {:induction false} CollectLastValue(parsed: seq<Option<(string, string)>>, j: nat, k: string, v: string)
    requires Collect(parsed).Some?
    requires j < |parsed| && parsed[j] == Some((k, v))
    requires forall i :: j < i < |parsed| ==> parsed[i].None? || parsed[i].value.0 != k
    ensures Lookup(Collect(parsed).value, k) == Some(v)
  {
    var n := |parsed|;
    var front := parsed[..n - 1];
    if j < n - 1 {
      assert Lookup(Collect(front).value, k) == Some(v) by {
        assert forall i :: 0 <= i < |front| ==> front[i] == parsed[i];
        CollectLastValue(front, j, k, v);
      }
      AssignFrame(Collect(front).value, parsed[n - 1].value.0, parsed[n - 1].value.1);
    }
  }

  /** When a key appears on several lines, the last of them gives its value. */
  lemma LastValueWins(lines: seq<string>, j: nat, k: string, v: string)
    requires ParseLines(lines).Some?
    requires j < |lines| && ParseLine(lines[j]) == Some((k, v))
    requires forall i :: j < i < |lines| ==> ParseLine(lines[i]).None? || ParseLine(lines[i]).value.0 != k
    ensures Lookup(ParseLines(lines).value, k) == Some(v)
  {
    CollectLastValue(ParseAll(lines), j, k, v);
  }

  lemma AssignKeys(d: Dict, k: string, v: string, key: string)
    requires DistinctKeys(d)
    ensures HasKey(Assign(d, k, v), key) <==> HasKey(d, key) || key == k
  {
    AssignFrame(d, k, v);
    if key != k {
      assert Lookup(Assign(d, k, v), key) == Lookup(d, key);
    }
  }

  /** Some parsed line has key k. */
  predicate KeyOnSomeLine(parsed: seq<Option<(string, string)>>, k: string) {
    exists i :: 0 <= i < |parsed| && parsed[i].Some? && parsed[i].value.0 == k
  }

  lemma KeyOnSomeLineLast(parsed: seq<Option<(string, string)>>, k: string)
    requires parsed != [] && parsed[|parsed| - 1].Some?
    ensures KeyOnSomeLine(parsed, k) <==>
            KeyOnSomeLine(parsed[..|parsed| - 1], k) || parsed[|parsed| - 1].value.0 == k
  {
    var front := parsed[..|parsed| - 1];
    if KeyOnSomeLine(parsed, k) && parsed[|parsed| - 1].value.0 != k {
      var i :| 0 <= i < |parsed| && parsed[i].Some? && parsed[i].value.0 == k;
      assert front[i] == parsed[i];
    }
    if KeyOnSomeLine(front, k) {
      var i :| 0 <= i < |front| && front[i].Some? && front[i].value.0 == k;
      assert parsed[i] == front[i];
    }
  }

  lemma {:induction false} CollectKeys(parsed: seq<Option<(string, string)>>, k: string)
    requires Collect(parsed).Some?
    ensures HasKey(Collect(parsed).value, k) <==> KeyOnSomeLine(parsed, k)
  {
    if parsed != [] {
      var front := parsed[..|parsed| - 1];
      var config := Collect(front).value;
      var (key, value) := parsed[|parsed| - 1].value;
      assert HasKey(config, k) <==> KeyOnSomeLine(front, k) by {
        CollectKeys(front, k);
      }
      assert HasKey(Collect(parsed).value, k) <==> HasKey(config, k) || key == k by {
        AssignKeys(config, key, value, k);
      }
      KeyOnSomeLineLast(parsed, k);
    }
  }

  /** A loaded dictionary has exactly the keys that appear on the lines. */
  lemma LoadedKeys(lines: seq<string>, k: string)
    requires ParseLines(lines).Some?
    ensures HasKey(ParseLines(lines).value, k) <==>
            exists i :: 0 <= i < |lines| && ParseLine(lines[i]).Some? && ParseLine(lines[i]).value.0 == k
  {
    var parsed := ParseAll(lines);
    CollectKeys(parsed, k);
    if HasKey(ParseLines(lines).value, k) {
      var i :| 0 <= i < |parsed| && parsed[i].Some? && parsed[i].value.0 == k;
      assert ParseLine(lines[i]) == parsed[i];
    }
  }

  /** Loading lines fails exactly when one of them, once stripped, has no
      `=`: a blank line is enough. */
  lemma ParseLinesFailsWithoutSeparator(lines: seq<string>)
    ensures ParseLines(lines).None? <==> exists i :: 0 <= i < |lines| && !HasSeparator(lines[i])
  {
    var parsed := ParseAll(lines);
    CollectSucceeds(parsed);
    forall i | 0 <= i < |lines|
      ensures parsed[i].None? <==> !HasSeparator(lines[i])
    {
      ParseLineFailsWithoutSeparator(lines[i]);
    }
  }
}
