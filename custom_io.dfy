/** The record store: the save path, SaveToFile and LoadFromFile.
    A file is a value: `Option<Str>` is what a read of it sees (None when it
    cannot be opened), and whether it can be opened for writing is a boolean. */
module CustomIO {
  import opened Text
  import opened HexE

  const FileExtension: Str := ".pwdb"
  const Delimiter: Char8 := '|'
  const Newline: Char8 := '\n'

  predicate IsAbsolute(path: Str) { |path| > 0 && path[0] == '/' }

  /** std::filesystem::path's `operator/` on POSIX: an absolute right side
      replaces the left one; otherwise the two are joined with one '/', which
      is left out when the left side is empty or already ends in '/'. */
  function PathJoin(dir: Str, name: Str): (r: Str)
    ensures |r| >= |name| && r[|r| - |name|..] == name
    ensures IsAbsolute(name) ==> r == name
    ensures !IsAbsolute(name) ==> |dir| <= |r| && r[..|dir|] == dir
    ensures !IsAbsolute(name) ==>
              (|r| == |dir| + 1 + |name| && r[|dir|] == '/') || |r| == |dir| + |name|
    ensures !IsAbsolute(name) ==>
              (|r| == |dir| + 1 + |name| <==> dir != [] && dir[|dir| - 1] != '/')
  {
    if IsAbsolute(name) then name
    else if dir != [] && dir[|dir| - 1] != '/' then dir + "/" + name
    else dir + name
  }

  /** GetSavePath: the working directory joined with `filename + ".pwdb"`.
      The working directory is a parameter. */
  function GetSavePath(cwd: Str, filename: Str): (p: Str)
    ensures |p| >= |filename| + |FileExtension|
    ensures p[|p| - |filename| - |FileExtension|..] == filename + FileExtension
    ensures IsAbsolute(filename) ==> p == filename + FileExtension
    ensures !IsAbsolute(filename) && cwd != [] && cwd[|cwd| - 1] != '/' ==>
              p == cwd + "/" + filename + FileExtension
    ensures !IsAbsolute(filename) && (cwd == [] || cwd[|cwd| - 1] == '/') ==>
              p == cwd + filename + FileExtension
  {
    var name := filename + FileExtension;
    assert IsAbsolute(name) <==> IsAbsolute(filename) by {
      if filename != [] { assert name[0] == filename[0]; }
    }
    assert cwd + "/" + name == cwd + "/" + filename + FileExtension;
    assert cwd + name == cwd + filename + FileExtension;
    PathJoin(cwd, name)
  }

  /** std::getline: the text up to the first line break, and what follows
      that break; text without a line break is one last line. */
  function ReadLine(text: Str): (r: (Str, Str))
    requires text != []
    ensures Newline !in r.0
    ensures |r.1| < |text|
    ensures text == r.0 + [Newline] + r.1 || (text == r.0 && r.1 == [])
  {
    match Find(text, Newline)
    case None => (text, [])
    case Some(i) => (text[..i], text[i + 1..])
  }

  lemma ReadLineOf(line: Str, rest: Str)
    requires Newline !in line
    ensures ReadLine(line + [Newline] + rest) == (line, rest)
  {
    var text := line + [Newline] + rest;
    FindAt(line, Newline, rest);
    assert text[..|line|] == line;
    assert text[|line| + 1..] == rest;
  }

  /** A line the loader can read: if it holds a delimiter, both sides of the
      first one are valid hex text (decrypt is undefined on anything else). */
  predicate LineOk(line: Str)
  {
    match Find(line, Delimiter)
    case None => true
    case Some(i) => IsHexText(line[..i]) && IsHexText(line[i + 1..])
  }

  /** A file whose every line the loader can read. */
  predicate WellFormed(text: Str)
    decreases |text|
  {
    text == [] || (LineOk(ReadLine(text).0) && WellFormed(ReadLine(text).1))
  }

  /** The key a line adds: the decoded text before its first delimiter, if
      it has one. */
  function LineKeys(line: Str): set<Str>
    requires LineOk(line)
  {
    match Find(line, Delimiter)
    case None => {}
    case Some(i) => {HexDecode(line[..i])}
  }

  /** The keys the lines of `text` add. */
  function TextKeys(text: Str): set<Str>
    requires WellFormed(text)
    decreases |text|
  {
    if text == [] then {} else LineKeys(ReadLine(text).0) + TextKeys(ReadLine(text).1)
  }

  /** One pass of the getline loop: a line without delimiter adds nothing,
      otherwise the decoded left side maps to the decoded right side,
      replacing any earlier value. */
  function ParseLine(acc: map<Str, Str>, line: Str): (r: map<Str, Str>)
    requires LineOk(line)
    ensures Delimiter !in line ==> r == acc
    ensures r.Keys == acc.Keys + LineKeys(line)
    ensures forall k :: k in acc && k !in LineKeys(line) ==> r[k] == acc[k]
    ensures Find(line, Delimiter).Some? ==>
              r[HexDecode(line[..Find(line, Delimiter).value])] == HexDecode(line[Find(line, Delimiter).value + 1..])
  {
    match Find(line, Delimiter)
    case None => acc
    case Some(i) => acc[HexDecode(line[..i]) := HexDecode(line[i + 1..])]
  }

  /** The map the loader builds from `text`, starting from `acc`. */
  function LoadLines(acc: map<Str, Str>, text: Str): map<Str, Str>
    requires WellFormed(text)
    decreases |text|
  {
    if text == [] then acc
    else LoadLines(ParseLine(acc, ReadLine(text).0), ReadLine(text).1)
  }

  /** The loaded map holds the starting keys and the keys of the lines, and
      a starting entry no line sets keeps its value. */
  lemma {:induction false} LoadKeys(acc: map<Str, Str>, text: Str)
    requires WellFormed(text)
    ensures LoadLines(acc, text).Keys == acc.Keys + TextKeys(text)
    ensures forall k :: k in acc && k !in TextKeys(text) ==> LoadLines(acc, text)[k] == acc[k]
    decreases |text|
  {
    if text != [] {
      LoadKeys(ParseLine(acc, ReadLine(text).0), ReadLine(text).1);
    }
  }

  /** The value of LoadFromFile: an empty map when the file cannot be opened,
      otherwise exactly the keys of its delimited lines. */
  function Load(file: Option<Str>): (r: map<Str, Str>)
    requires file.Some? ==> WellFormed(file.value)
    ensures file.None? ==> r == map[]
    ensures file.Some? ==> r.Keys == TextKeys(file.value)
  {
    match file
    case None => map[]
    case Some(text) => LoadKeys(map[], text); LoadLines(map[], text)
  }

  /** Whole lines only: empty, or ending in a line break. */
  predicate Terminated(text: Str) { text == [] || text[|text| - 1] == Newline }

  /** A delimited line with its line break. */
  function Line(left: Str, right: Str): Str
  {
    left + [Delimiter] + right + [Newline]
  }

  /** One saved line: enc(app) "|" enc(pass) "\n". */
  function Record(app: Str, pass: Str): Str
  {
    Line(HexEncode(app), HexEncode(pass))
  }

  /** A saved record is one whole line, and its first delimiter ends the
      encoded name. */
  lemma RecordShape(app: Str, pass: Str)
    ensures |Record(app, pass)| == 2 * |app| + 2 * |pass| + 2
    ensures Find(Record(app, pass), Delimiter) == Some(2 * |app|)
    ensures Record(app, pass)[|Record(app, pass)| - 1] == Newline
    ensures Newline !in Record(app, pass)[..|Record(app, pass)| - 1]
  {
    var a, b := HexEncode(app), HexEncode(pass);
    HexEncodeAlphabet(app);
    HexEncodeAlphabet(pass);
    FindAt(a, Delimiter, b + [Newline]);
    assert Line(a, b) == a + [Delimiter] + (b + [Newline]);
    assert Line(a, b)[..|Line(a, b)| - 1] == a + [Delimiter] + b;
  }

  /** The text SaveToFile writes when it visits the keys in `order`. */
  function Serialize(m: map<Str, Str>, order: seq<Str>): Str
    requires forall k :: k in order ==> k in m
  {
    if order == [] then [] else Record(order[0], m[order[0]]) + Serialize(m, order[1..])
  }

  /** Saved text is whole lines, and it is empty exactly when no key was visited. */
  lemma {:induction false} SerializeTerminated(m: map<Str, Str>, order: seq<Str>)
    requires forall k :: k in order ==> k in m
    ensures Terminated(Serialize(m, order))
    ensures Serialize(m, order) == [] <==> order == []
  {
    if order != [] {
      SerializeTerminated(m, order[1..]);
      RecordShape(order[0], m[order[0]]);
    }
  }

  lemma {:induction false} SerializeAppend(m: map<Str, Str>, order: seq<Str>, k: Str)
    requires forall x :: x in order ==> x in m
    requires k in m
    ensures Serialize(m, order + [k]) == Serialize(m, order) + Record(k, m[k])
  {
    if order == [] {
      assert order + [k] == [k];
    } else {
      assert (order + [k])[1..] == order[1..] + [k];
      SerializeAppend(m, order[1..], k);
    }
  }

  /** A line that contains no '|' is skipped and adds no entry, whether a
      line break follows it or it is the last text of the file. */
  lemma LoadSkipsLineWithoutDelimiter(acc: map<Str, Str>, line: Str, rest: Str, text: Str)
    requires Delimiter !in line && Newline !in line
    requires WellFormed(rest)
    requires text == line + [Newline] + rest || (text == line && rest == [])
    ensures WellFormed(text)
    ensures LoadLines(acc, text) == LoadLines(acc, rest)
  {
    if text == line + [Newline] + rest {
      ReadLineOf(line, rest);
    } else if line != [] {
      assert Find(line, Newline).None?;
      assert ReadLine(text) == (line, []);
    }
  }

  /** A line is split at its first '|': the decoded left part becomes the key
      and the decoded remainder its value, over any earlier value of that key.
      The line may end in a line break or be the last text of the file. */
  lemma LoadSplitsAtDelimiter(acc: map<Str, Str>, left: Str, right: Str, rest: Str, text: Str)
    requires IsHexText(left) && IsHexText(right)
    requires WellFormed(rest)
    requires text == Line(left, right) + rest || (text == left + [Delimiter] + right && rest == [])
    ensures WellFormed(text)
    ensures LoadLines(acc, text) == LoadLines(acc[HexDecode(left) := HexDecode(right)], rest)
  {
    var line := left + [Delimiter] + right;
    assert Delimiter !in left by {
      forall i | 0 <= i < |left| ensures left[i] != Delimiter { assert IsHexDigit(left[i]); }
    }
    assert Newline !in line by {
      forall i | 0 <= i < |line| ensures line[i] != Newline {
        if i < |left| { assert IsHexDigit(left[i]); }
        else if i > |left| { assert line[i] == right[i - |left| - 1]; assert IsHexDigit(right[i - |left| - 1]); }
      }
    }
    if text == Line(left, right) + rest {
      assert text == line + [Newline] + rest;
      ReadLineOf(line, rest);
    } else {
      assert Find(line, Newline).None?;
      assert ReadLine(text) == (line, []);
    }
    FindAt(left, Delimiter, right);
    assert line[..|left|] == left;
    assert line[|left| + 1..] == right;
  }

  /** Whole-line text splits at its first line break, also when more text
      is appended to it. */
  lemma SplitFirstLine(a: Str, b: Str)
    requires a != [] && Terminated(a)
    ensures a == ReadLine(a).0 + [Newline] + ReadLine(a).1
    ensures a + b == ReadLine(a).0 + [Newline] + (ReadLine(a).1 + b)
    ensures Terminated(ReadLine(a).1)
  {
    var line, r := ReadLine(a).0, ReadLine(a).1;
    assert a[|a| - 1] in a;
    assert a == line + [Newline] + r;
    assert |a + b| == |line + [Newline] + (r + b)|;
    forall i | 0 <= i < |a + b| ensures (a + b)[i] == (line + [Newline] + (r + b))[i] {
      if i < |a| { assert (a + b)[i] == a[i]; } else { assert (a + b)[i] == b[i - |a|]; }
    }
    if r != [] { assert r[|r| - 1] == a[|a| - 1]; }
  }

  /** Loading a line followed by a line break, then the rest. */
  lemma LoadLineOf(acc: map<Str, Str>, line: Str, rest: Str)
    requires Newline !in line && LineOk(line) && WellFormed(rest)
    ensures WellFormed(line + [Newline] + rest)
    ensures LoadLines(acc, line + [Newline] + rest) == LoadLines(ParseLine(acc, line), rest)
  {
    ReadLineOf(line, rest);
  }

  /** Loading `a + b`, where `a` is whole lines, loads `a` and then loads `b`
      over the result. */
  lemma {:induction false} LoadConcat(acc: map<Str, Str>, a: Str, b: Str)
    requires WellFormed(a) && Terminated(a)
    requires WellFormed(b)
    ensures WellFormed(a + b)
    ensures LoadLines(acc, a + b) == LoadLines(LoadLines(acc, a), b)
    decreases |a|
  {
    if a == [] {
      assert a + b == b;
    } else {
      var line, r := ReadLine(a).0, ReadLine(a).1;
      SplitFirstLine(a, b);
      LoadConcat(ParseLine(acc, line), r, b);
      LoadLineOf(acc, line, r + b);
    }
  }

  /** A delimited line anywhere in the file: whatever whole lines `pre` come
      before it, its decoded pair goes over the map they load. The line, with
      what follows it, is `tail`; it ends in a line break or the file. */
  lemma LoadLineAfter(acc: map<Str, Str>, pre: Str, tail: Str, left: Str, right: Str, rest: Str)
    requires WellFormed(pre) && Terminated(pre)
    requires IsHexText(left) && IsHexText(right)
    requires WellFormed(rest)
    requires tail == Line(left, right) + rest || (tail == left + [Delimiter] + right && rest == [])
    ensures WellFormed(pre + tail)
    ensures LoadLines(acc, pre + tail) == LoadLines(LoadLines(acc, pre)[HexDecode(left) := HexDecode(right)], rest)
  {
    LoadSplitsAtDelimiter(LoadLines(acc, pre), left, right, rest, tail);
    LoadConcat(acc, pre, tail);
  }

  /** Of two lines with the same key, the later one's value is the one the
      loaded map holds, whatever whole lines `pre` and `mid` lie before and
      between them, as long as no line of `rest` after both sets that key
      again. The later line, with what follows it, is `tail`. */
  lemma LoadLastLineWins(acc: map<Str, Str>, pre: Str, left1: Str, right1: Str, mid: Str,
                         tail: Str, left2: Str, right2: Str, rest: Str)
    requires WellFormed(pre) && Terminated(pre) && WellFormed(mid) && Terminated(mid)
    requires IsHexText(left1) && IsHexText(right1) && IsHexText(left2) && IsHexText(right2)
    requires HexDecode(left1) == HexDecode(left2)
    requires WellFormed(rest) && HexDecode(left2) !in TextKeys(rest)
    requires tail == Line(left2, right2) + rest || (tail == left2 + [Delimiter] + right2 && rest == [])
    ensures WellFormed(pre + (Line(left1, right1) + mid) + tail)
    ensures HexDecode(left1) in LoadLines(acc, pre + (Line(left1, right1) + mid) + tail)
    ensures LoadLines(acc, pre + (Line(left1, right1) + mid) + tail)[HexDecode(left1)] == HexDecode(right2)
  {
    var first := Line(left1, right1) + mid;
    var before := pre + first;
    assert WellFormed(before) && Terminated(before) by {
      LoadSplitsAtDelimiter(LoadLines(acc, pre), left1, right1, mid, first);
      LoadConcat(acc, pre, first);
      if mid != [] {
        assert before[|before| - 1] == mid[|mid| - 1];
      } else {
        assert before[|before| - 1] == Line(left1, right1)[|Line(left1, right1)| - 1];
      }
    }
    var loaded := LoadLines(LoadLines(acc, before)[HexDecode(left2) := HexDecode(right2)], rest);
    assert WellFormed(before + tail) && LoadLines(acc, before + tail) == loaded by {
      LoadLineAfter(acc, before, tail, left2, right2, rest);
    }
    LoadKeys(LoadLines(acc, before)[HexDecode(left2) := HexDecode(right2)], rest);
  }

  /** The map `acc` after the entries of `m` listed in `order` are put in,
      one at a time. */
  function Overlay(acc: map<Str, Str>, m: map<Str, Str>, order: seq<Str>): (r: map<Str, Str>)
    requires forall k :: k in order ==> k in m
    ensures forall k :: k in r <==> k in acc || k in order
    ensures forall k :: k in order ==> r[k] == m[k]
    ensures forall k :: k in acc && k !in order ==> r[k] == acc[k]
    decreases |order|
  {
    if order == [] then acc else Overlay(acc[order[0] := m[order[0]]], m, order[1..])
  }

  /** Loading saved records puts exactly the saved entries over what was there. */
  lemma {:induction false} LoadSerialized(acc: map<Str, Str>, m: map<Str, Str>, order: seq<Str>)
    requires forall k :: k in order ==> k in m
    ensures WellFormed(Serialize(m, order))
    ensures LoadLines(acc, Serialize(m, order)) == Overlay(acc, m, order)
    decreases |order|
  {
    if order != [] {
      var k := order[0];
      var rest := Serialize(m, order[1..]);
      LoadSerialized(acc[k := m[k]], m, order[1..]);
      DecodeEncode(k);
      DecodeEncode(m[k]);
      LoadSplitsAtDelimiter(acc, HexEncode(k), HexEncode(m[k]), rest, Serialize(m, order));
    }
  }

  /** The main theorem: loading what was saved gives back the saved map,
      whatever order the map was visited in. */
  lemma SaveLoadRoundTrip(m: map<Str, Str>, order: seq<Str>)
    requires IsEnumeration(order, m)
    ensures WellFormed(Serialize(m, order))
    ensures Load(Some(Serialize(m, order))) == m
  {
    LoadSerialized(map[], m, order);
    var r := Overlay(map[], m, order);
    assert r.Keys == m.Keys;
  }

  /** SaveToFile: when the file opens for writing (truncating it), one record
      per entry in the map's iteration order, which the model leaves open and
      reports as `order`; otherwise false and the file as it was. */
  method SaveToFile(passwords: map<Str, Str>, before: Option<Str>, writable: bool, encrypt: HexEncryption)
    returns (ok: bool, after: Option<Str>, ghost order: seq<Str>)
    ensures ok == writable
    ensures !ok ==> after == before
    ensures ok ==> IsEnumeration(order, passwords) && after == Some(Serialize(passwords, order))
  {
    if !writable {
      return false, before, [];
    }
    var out: Str := [];
    var remaining := passwords.Keys;
    order := [];
    while remaining != {}
      invariant Visited(order, passwords.Keys, remaining)
      invariant out == Serialize(passwords, order)
      decreases remaining
    {
      var app :| app in remaining;
      var encApp := encrypt.Encrypt(app);
      var encPass := encrypt.Encrypt(passwords[app]);
      ghost var line := encApp + [Delimiter] + encPass + [Newline];
      assert line == Record(app, passwords[app]);
      out := out + encApp + [Delimiter] + encPass + [Newline];
      assert out == Serialize(passwords, order) + line;
      SerializeAppend(passwords, order, app);
      VisitStep(order, passwords.Keys, remaining, app);
      order := order + [app];
      remaining := remaining - {app};
    }
    VisitDone(order, passwords);
    return true, Some(out), order;
  }

  /** LoadFromFile: the getline loop over the file, inserting each delimited
      line's decoded pair; an empty map when the file cannot be opened. */
  method LoadFromFile(file: Option<Str>, encrypt: HexEncryption) returns (passwords: map<Str, Str>)
    requires file.Some? ==> WellFormed(file.value)
    ensures passwords == Load(file)
    ensures file.None? ==> passwords == map[]
  {
    passwords := map[];
    if file.Some? {
      var rest := file.value;
      while rest != []
        invariant WellFormed(rest)
        invariant LoadLines(passwords, rest) == Load(file)
        decreases |rest|
      {
        var line: Str;
        line, rest := ReadLine(rest).0, ReadLine(rest).1;
        var delimiterPos := Find(line, Delimiter);
        if delimiterPos.Some? {
          var app := encrypt.Decrypt(line[..delimiterPos.value]);
          var pass := encrypt.Decrypt(line[delimiterPos.value + 1..]);
          passwords := passwords[app := pass];
        }
      }
    }
  }
}
