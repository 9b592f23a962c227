/**
 * The text dump writer for protocol messages.  A message is written as
 * `<contextId> <name>` followed by ` key=value` fields; values that cannot
 * stand inline (strings with whitespace, long base64 blobs) go to a lazily
 * created continuation buffer, which is flushed as a `{ ... }` block when the
 * message is finished.
 *
 * Beside the writer, this module holds the reading side of each rendering
 * (a parser) and proves that every rendering reads back to what was written.
 */
module TextWriter {
  import opened Common
  import opened NumericText

  const BASE64_LINE_WIDTH: nat := 70

  /** `isspace` in the C locale: space, \t, \n, \v, \f and \r. */
  predicate IsCSpace(c: char) { c == ' ' || '\t' <= c <= '\r' }

  /** `s` holds no `c`. */
  predicate Lacks(s: string, c: char) { forall i :: 0 <= i < |s| ==> s[i] != c }

  predicate HasWhitespace(s: string) { exists i :: 0 <= i < |s| && IsCSpace(s[i]) }

  /** The inline form of every field: ` key=value`. */
  function Field(key: string, value: string): string { " " + key + "=" + value }

  function BoolText(b: bool): string { if b then "true" else "false" }

  function ParseBool(s: string): Option<bool>
  {
    if s == "true" then Some(true) else if s == "false" then Some(false) else None
  }

  lemma BoolRoundTrip(b: bool)
    ensures ParseBool(BoolText(b)) == Some(b)
  {
  }

  /** `0x%04x` of an `int`: `%x` reads the argument as an unsigned int. */
  function IdText(value: I32): string
  {
    "0x" + HexPadded(value % 0x1_0000_0000, 4)
  }

  /** An id renders as `0x` and at least four hex digits that read back to the id
    * (as an unsigned 32-bit value); a 16-bit id uses exactly four. */
  lemma IdRoundTrip(value: I32)
    ensures |IdText(value)| >= 6 && IdText(value)[..2] == "0x"
    ensures AllHex(IdText(value)[2..]) && HexValue(IdText(value)[2..]) == value as int % 0x1_0000_0000
    ensures 0 <= value < 0x1_0000 ==> |IdText(value)| == 6
  {
    var v: nat := value as int % 0x1_0000_0000;
    var h := HexPadded(v, 4);
    assert IdText(value) == "0x" + h;
    PrefixedHex(h);
    HexPaddedRoundTrip(v, 4);
    if 0 <= value < 0x1_0000 {
      ShortIdWidth(value);
    }
  }

  /** A 16-bit id needs no more than the four padded digits. */
  lemma ShortIdWidth(value: I32)
    requires 0 <= value < 0x1_0000
    ensures |IdText(value)| == 6
  {
    var v: nat := value as int % 0x1_0000_0000;
    assert v == value as int;
    assert Pow16(4) == 0x1_0000;
    HexPaddedWidth(v, 4);
  }

  lemma PrefixedHex(h: string)
    ensures ("0x" + h)[..2] == "0x" && ("0x" + h)[2..] == h && |"0x" + h| == |h| + 2
  {
  }

  /** An ARGB colour: `#rrggbb` when the alpha byte is 0xff, `#aarrggbb` otherwise. */
  function ColorText(argb: U32): string
  {
    if argb / 0x100_0000 == 0xff then "#" + HexPadded(argb % 0x100_0000, 6)
    else "#" + HexPadded(argb, 8)
  }

  function ParseColor(s: string): Option<int>
  {
    if |s| == 7 && s[0] == '#' && AllHex(s[1..]) then Some(0xff00_0000 + HexValue(s[1..]))
    else if |s| == 9 && s[0] == '#' && AllHex(s[1..]) then Some(HexValue(s[1..]))
    else None
  }

  /** Both colour forms read back to the original value, the short form
    * restoring the opaque alpha byte. */
  lemma ColorRoundTrip(argb: U32)
    ensures ParseColor(ColorText(argb)) == Some(argb)
    ensures |ColorText(argb)| == if argb / 0x100_0000 == 0xff then 7 else 9
  {
    var t := ColorText(argb);
    assert Pow16(6) == 0x100_0000 && Pow16(8) == 0x1_0000_0000;
    if argb / 0x100_0000 == 0xff {
      HexPaddedWidth(argb % 0x100_0000, 6);
      HexPaddedRoundTrip(argb % 0x100_0000, 6);
      assert t[1..] == HexPadded(argb % 0x100_0000, 6);
    } else {
      HexPaddedWidth(argb, 8);
      HexPaddedRoundTrip(argb, 8);
      assert t[1..] == HexPadded(argb, 8);
    }
  }

  /** `parts` joined with `sep` between neighbours; the empty list joins to "". */
  function Join(parts: seq<string>, sep: char): string
  {
    if |parts| == 0 then ""
    else if |parts| == 1 then parts[0]
    else parts[0] + [sep] + Join(parts[1..], sep)
  }

  lemma {:induction false} JoinSnoc(parts: seq<string>, x: string, sep: char)
    requires |parts| > 0
    ensures Join(parts + [x], sep) == Join(parts, sep) + [sep] + x
  {
    if |parts| > 1 {
      assert (parts + [x])[1..] == parts[1..] + [x];
      JoinSnoc(parts[1..], x, sep);
    }
  }

  function FirstIndexOf(s: string, c: char): (i: nat)
    ensures i <= |s|
    ensures i < |s| ==> s[i] == c
    ensures forall j :: 0 <= j < i ==> s[j] != c
  {
    if s == [] then 0 else if s[0] == c then 0 else 1 + FirstIndexOf(s[1..], c)
  }

  /** The first index of `c` is `i` when `s[i]` is `c` (or `i` is the end)
    * and no earlier character is. */
  lemma {:induction false} FirstIndexAt(s: string, c: char, i: nat)
    requires i <= |s| && (i == |s| || s[i] == c)
    requires forall j :: 0 <= j < i ==> s[j] != c
    ensures FirstIndexOf(s, c) == i
  {
    if i > 0 {
      FirstIndexAt(s[1..], c, i - 1);
    }
  }

  /** `s` cut at every `sep`; there is always at least one part. */
  function Split(s: string, sep: char): (parts: seq<string>)
    ensures |parts| >= 1
    decreases |s|
  {
    var i := FirstIndexOf(s, sep);
    if i == |s| then [s] else [s[..i]] + Split(s[i + 1..], sep)
  }

  /** No part of a split holds the separator. */
  lemma {:induction false} SplitPartsLack(s: string, sep: char)
    ensures forall k :: 0 <= k < |Split(s, sep)| ==> Lacks(Split(s, sep)[k], sep)
    decreases |s|
  {
    var i := FirstIndexOf(s, sep);
    if i < |s| {
      SplitPartsLack(s[i + 1..], sep);
      var rest := Split(s[i + 1..], sep);
      assert Split(s, sep) == [s[..i]] + rest;
      forall k | 0 < k < |Split(s, sep)| ensures Lacks(Split(s, sep)[k], sep) {
        assert Split(s, sep)[k] == rest[k - 1];
      }
    }
  }

  /** Splitting at the first separator: one part up to it, then the rest. */
  lemma SplitAt(s: string, sep: char, i: nat)
    requires i <= |s| && (i == |s| || s[i] == sep)
    requires forall j :: 0 <= j < i ==> s[j] != sep
    ensures Split(s, sep) == [s[..i]] + (if i == |s| then [] else Split(s[i + 1..], sep))
  {
    if i == |s| {
      assert s[..i] == s;
    }
  }

  lemma {:induction false} JoinSplit(s: string, sep: char)
    ensures Join(Split(s, sep), sep) == s
    decreases |s|
  {
    var i := FirstIndexOf(s, sep);
    if i < |s| {
      var rest := Split(s[i + 1..], sep);
      assert Split(s, sep) == [s[..i]] + rest;
      JoinSplit(s[i + 1..], sep);
      assert ([s[..i]] + rest)[1..] == rest;
      assert Join([s[..i]] + rest, sep) == s[..i] + [sep] + Join(rest, sep);
      assert s == s[..i] + [sep] + s[i + 1..];
    }
  }

  lemma {:induction false} SplitJoin(parts: seq<string>, sep: char)
    requires |parts| >= 1
    requires forall k :: 0 <= k < |parts| ==> Lacks(parts[k], sep)
    ensures Split(Join(parts, sep), sep) == parts
  {
    var s := Join(parts, sep);
    var p := parts[0];
    if |parts| == 1 {
      assert Split(s, sep) == [p] by {
        assert Lacks(p, sep);
        SplitAt(s, sep, |s|);
        assert s[..|s|] == p;
      }
      assert parts == [p];
    } else {
      var tail := Join(parts[1..], sep);
      assert Split(s, sep) == [p] + Split(tail, sep) by {
        assert Lacks(p, sep);
        assert s == p + [sep] + tail;
        assert s[..|p|] == p;
        assert s[|p| + 1..] == tail;
        assert forall j :: 0 <= j < |p| ==> s[j] == p[j];
        SplitAt(s, sep, |p|);
      }
      SplitJoin(parts[1..], sep);
      assert parts == [p] + parts[1..];
    }
  }

  /** The list value of WRITE_LIST: the rendered elements joined with commas.
    * An empty list gives ` key=`. */
  function ListText(key: string, rendered: seq<string>): string
  {
    Field(key, Join(rendered, ','))
  }

  function IdTexts(values: seq<I32>): (r: seq<string>)
    ensures |r| == |values| && forall k :: 0 <= k < |values| ==> r[k] == IdText(values[k])
  {
    seq(|values|, k requires 0 <= k < |values| => IdText(values[k]))
  }

  function Decimals(values: seq<U32>): (r: seq<string>)
    ensures |r| == |values| && forall k :: 0 <= k < |values| ==> r[k] == Decimal(values[k])
  {
    seq(|values|, k requires 0 <= k < |values| => Decimal(values[k]))
  }

  /** A non-empty unsigned list reads back element by element, in order. */
  lemma UintListRoundTrip(values: seq<U32>)
    requires |values| > 0
    ensures Split(Join(Decimals(values), ','), ',') == Decimals(values)
    ensures forall k :: 0 <= k < |values| ==> DecimalValue(Decimals(values)[k]) == values[k]
  {
    var texts := Decimals(values);
    forall k | 0 <= k < |texts| ensures Lacks(texts[k], ',') {
      NoCommaInDigits(texts[k]);
    }
    SplitJoin(texts, ',');
    forall k | 0 <= k < |values| ensures DecimalValue(texts[k]) == values[k] {
      DecimalRoundTrip(values[k]);
    }
  }

  /** A non-empty id list reads back element by element, in order. */
  lemma IdListRoundTrip(values: seq<I32>)
    requires |values| > 0
    ensures Split(Join(IdTexts(values), ','), ',') == IdTexts(values)
    ensures forall k :: 0 <= k < |values| ==>
      |IdTexts(values)[k]| >= 6 && IdTexts(values)[k][..2] == "0x" && AllHex(IdTexts(values)[k][2..]) &&
      HexValue(IdTexts(values)[k][2..]) == values[k] as int % 0x1_0000_0000
  {
    var texts := IdTexts(values);
    forall k | 0 <= k < |texts| ensures Lacks(texts[k], ',') {
      IdRoundTrip(values[k]);
      var t := texts[k];
      NoCommaInHex(t[2..]);
      assert t == t[..2] + t[2..];
    }
    SplitJoin(texts, ',');
    forall k | 0 <= k < |values|
      ensures |texts[k]| >= 6 && texts[k][..2] == "0x" && AllHex(texts[k][2..])
      ensures HexValue(texts[k][2..]) == values[k] as int % 0x1_0000_0000
    {
      IdRoundTrip(values[k]);
    }
  }

  lemma NoCommaInDigits(s: string)
    requires AllDigits(s)
    ensures Lacks(s, ',')
  {
    assert forall j :: 0 <= j < |s| ==> s[j] != ',';
  }

  lemma NoCommaInHex(s: string)
    requires AllHex(s)
    ensures Lacks(s, ',')
  {
    assert forall j :: 0 <= j < |s| ==> s[j] != ',';
  }

  /** One flag of DP_text_writer_write_flags' variable argument list: a name and its mask. */
  datatype Flag = Flag(name: string, mask: bv32)

  /** Whether `value` has any bit of the flag's mask set. */
  predicate IsSet(value: bv32, f: Flag) { value & f.mask != 0 }

  /** The names whose mask intersects `value`, in argument order. */
  function SetNames(value: bv32, flags: seq<Flag>): seq<string>
  {
    if flags == [] then []
    else
      var last := flags[|flags| - 1];
      SetNames(value, flags[..|flags| - 1]) + (if IsSet(value, last) then [last.name] else [])
  }

  /** A name is listed exactly when its mask intersects the value, nothing is
    * listed when no mask does, and the names keep the argument order. */
  lemma {:induction false} SetNamesMembers(value: bv32, flags: seq<Flag>)
    ensures |SetNames(value, flags)| <= |flags|
    ensures SetNames(value, flags) == [] <==> forall k :: 0 <= k < |flags| ==> !IsSet(value, flags[k])
    ensures forall k :: 0 <= k < |flags| && IsSet(value, flags[k]) ==> flags[k].name in SetNames(value, flags)
    ensures forall n :: n in SetNames(value, flags) ==>
      exists k :: 0 <= k < |flags| && flags[k].name == n && IsSet(value, flags[k])
  {
    if flags != [] {
      var init := flags[..|flags| - 1];
      SetNamesMembers(value, init);
      assert forall k :: 0 <= k < |init| ==> init[k] == flags[k];
    }
  }

  lemma SetNamesSnoc(value: bv32, flags: seq<Flag>, i: nat)
    requires i < |flags|
    ensures IsSet(value, flags[i]) ==> SetNames(value, flags[..i + 1]) == SetNames(value, flags[..i]) + [flags[i].name]
    ensures !IsSet(value, flags[i]) ==> SetNames(value, flags[..i + 1]) == SetNames(value, flags[..i])
  {
    InitOfPrefix(flags, i);
    AppendEmpty(SetNames(value, flags[..i]));
  }

  /** One more set flag extends the text by its field or by a comma and
    * its name. */
  lemma FlagsTextSnoc(prefix: string, key: string, names: seq<string>, name: string)
    ensures prefix + FlagsText(key, names + [name]) ==
      prefix + FlagsText(key, names) + (if |names| == 0 then Field(key, name) else "," + name)
  {
    if |names| == 0 {
      assert names + [name] == [name];
    } else {
      JoinSnoc(names, name, ',');
      AppendAssoc(Field(key, Join(names, ',')), [','], name);
    }
  }

  /** Flags write nothing at all when no listed mask is set. */
  function FlagsText(key: string, names: seq<string>): string
  {
    if names == [] then "" else Field(key, Join(names, ','))
  }

  /** One continuation line of the multi-line buffer. */
  function ContinuationLine(key: string, segment: string): string
  {
    "\n\t" + key + "=" + segment
  }

  /** The continuation lines for `segments`, in order. */
  function Lines(key: string, segments: seq<string>): string
  {
    if segments == [] then ""
    else Lines(key, segments[..|segments| - 1]) + ContinuationLine(key, segments[|segments| - 1])
  }

  /** `t` cut into lines of `width` characters; the last line holds the rest. */
  function Chunks(t: string, width: nat): seq<string>
    requires width > 0
    decreases |t|
  {
    if |t| <= width then [t] else [t[..width]] + Chunks(t[width..], width)
  }

  function Concat(parts: seq<string>): string
  {
    if parts == [] then "" else parts[0] + Concat(parts[1..])
  }

  lemma {:induction false} ChunksConcat(t: string, width: nat)
    requires width > 0
    ensures Concat(Chunks(t, width)) == t
    decreases |t|
  {
    if |t| > width {
      ChunksConcat(t[width..], width);
      assert t == t[..width] + t[width..];
    }
  }

  /** Every line but the last holds exactly `width` characters, the last 1 to
    * `width`: no empty line is produced for a non-empty text. */
  lemma {:induction false} ChunkSizes(t: string, width: nat)
    requires width > 0 && |t| > 0
    ensures forall k :: 0 <= k < |Chunks(t, width)| ==> 1 <= |Chunks(t, width)[k]| <= width
    ensures forall k :: 0 <= k < |Chunks(t, width)| - 1 ==> |Chunks(t, width)[k]| == width
    decreases |t|
  {
    if |t| > width {
      ChunkSizes(t[width..], width);
      var c := Chunks(t, width);
      var rest := Chunks(t[width..], width);
      assert c == [t[..width]] + rest;
      assert forall k :: 1 <= k < |c| ==> c[k] == rest[k - 1];
    } else {
      assert Chunks(t, width) == [t];
    }
  }

  /** The prefix that tags one continuation line, after its newline. */
  function Tag(key: string): string { "\t" + key + "=" }

  function Tagged(key: string, segments: seq<string>): (r: seq<string>)
    ensures |r| == |segments| && forall k :: 0 <= k < |r| ==> r[k] == Tag(key) + segments[k]
  {
    seq(|segments|, k requires 0 <= k < |segments| => Tag(key) + segments[k])
  }

  /** Reads a block of continuation lines for `key` back into its segments. */
  function ReadContinuation(block: string, key: string): Option<seq<string>>
  {
    var parts := Split(block, '\n');
    if parts[0] != "" then None else StripTags(parts[1..], key)
  }

  function StripTags(lines: seq<string>, key: string): Option<seq<string>>
  {
    if lines == [] then Some([])
    else
      var t := Tag(key);
      if |lines[0]| >= |t| && lines[0][..|t|] == t then
        match StripTags(lines[1..], key)
        case Some(rest) => Some([lines[0][|t|..]] + rest)
        case None => None
      else None
  }

  /** Appending a segment appends one tagged line. */
  lemma TaggedSnoc(key: string, segments: seq<string>)
    requires segments != []
    ensures [""] + Tagged(key, segments)
            == ([""] + Tagged(key, segments[..|segments| - 1])) + [Tag(key) + segments[|segments| - 1]]
  {
    var a := [""] + Tagged(key, segments);
    var b := ([""] + Tagged(key, segments[..|segments| - 1])) + [Tag(key) + segments[|segments| - 1]];
    forall k | 0 <= k < |a| ensures a[k] == b[k] {
      if 0 < k < |a| - 1 {
        assert a[k] == Tag(key) + segments[k - 1];
      }
    }
    SameElements(a, b);
  }

  lemma {:induction false} LinesAsJoin(key: string, segments: seq<string>)
    ensures Lines(key, segments) == Join([""] + Tagged(key, segments), '\n')
  {
    if segments != [] {
      var init := segments[..|segments| - 1];
      var x := segments[|segments| - 1];
      var before := [""] + Tagged(key, init);
      calc {
        Lines(key, segments);
        Lines(key, init) + ContinuationLine(key, x);
        { LinesAsJoin(key, init);
          assert ContinuationLine(key, x) == ['\n'] + (Tag(key) + x); }
        Join(before, '\n') + (['\n'] + (Tag(key) + x));
        { AppendAssoc(Join(before, '\n'), ['\n'], Tag(key) + x); }
        Join(before, '\n') + ['\n'] + (Tag(key) + x);
        { JoinSnoc(before, Tag(key) + x, '\n'); }
        Join(before + [Tag(key) + x], '\n');
        { TaggedSnoc(key, segments); }
        Join([""] + Tagged(key, segments), '\n');
      }
    }
  }

  lemma {:induction false} StripTagged(key: string, segments: seq<string>)
    ensures StripTags(Tagged(key, segments), key) == Some(segments)
  {
    if segments != [] {
      assert Tagged(key, segments)[1..] == Tagged(key, segments[1..]);
      StripTagged(key, segments[1..]);
      assert (Tag(key) + segments[0])[|Tag(key)|..] == segments[0];
      assert (Tag(key) + segments[0])[..|Tag(key)|] == Tag(key);
      assert Tagged(key, segments)[0] == Tag(key) + segments[0];
      assert segments == [segments[0]] + segments[1..];
    }
  }

  /** The continuation block reads back to the segments it was written from,
    * as long as neither the key nor a segment holds a newline. */
  lemma ContinuationRoundTrip(key: string, segments: seq<string>)
    requires Lacks(key, '\n')
    requires forall k :: 0 <= k < |segments| ==> Lacks(segments[k], '\n')
    ensures ReadContinuation(Lines(key, segments), key) == Some(segments)
  {
    var parts := [""] + Tagged(key, segments);
    forall k | 0 <= k < |parts| ensures Lacks(parts[k], '\n') {
      if k > 0 {
        assert parts[k] == "\t" + key + "=" + segments[k - 1];
      }
    }
    LinesAsJoin(key, segments);
    SplitJoin(parts, '\n');
    assert parts[1..] == Tagged(key, segments);
    StripTagged(key, segments);
  }

  /** A string with whitespace is buffered so that reading the block back and
    * joining its lines with newlines gives the string again. */
  lemma MultilineStringRoundTrip(key: string, value: string)
    requires Lacks(key, '\n')
    ensures ReadContinuation(Lines(key, Split(value, '\n')), key) == Some(Split(value, '\n'))
    ensures Join(Split(value, '\n'), '\n') == value
  {
    SplitPartsLack(value, '\n');
    ContinuationRoundTrip(key, Split(value, '\n'));
    JoinSplit(value, '\n');
  }

  /** A long base64 text is buffered so that reading the block back and
    * concatenating its lines gives the text again. */
  lemma WrappedBase64RoundTrip(key: string, encoded: string)
    requires Lacks(key, '\n') && Lacks(encoded, '\n')
    ensures ReadContinuation(Lines(key, Chunks(encoded, BASE64_LINE_WIDTH)), key)
            == Some(Chunks(encoded, BASE64_LINE_WIDTH))
    ensures Concat(Chunks(encoded, BASE64_LINE_WIDTH)) == encoded
  {
    ChunksConcat(encoded, BASE64_LINE_WIDTH);
    ChunksHaveNoNewline(encoded, BASE64_LINE_WIDTH);
    ContinuationRoundTrip(key, Chunks(encoded, BASE64_LINE_WIDTH));
  }

  lemma {:induction false} ChunksHaveNoNewline(t: string, width: nat)
    requires width > 0 && Lacks(t, '\n')
    ensures forall k :: 0 <= k < |Chunks(t, width)| ==> Lacks(Chunks(t, width)[k], '\n')
    decreases |t|
  {
    if |t| > width {
      ChunksHaveNoNewline(t[width..], width);
      var c := Chunks(t, width);
      var rest := Chunks(t[width..], width);
      assert c == [t[..width]] + rest;
      assert forall i :: 0 <= i < width ==> t[..width][i] == t[i];
      assert forall k :: 1 <= k < |c| ==> c[k] == rest[k - 1];
    } else {
      assert Chunks(t, width) == [t];
    }
  }

  /** What finishing a message writes, given the continuation buffer. */
  function FinishText(buffer: Option<string>, undoPoint: bool): (t: string)
    ensures |t| >= 1
  {
    var extra := if undoPoint then "\n" else "";
    if buffer.Some? && |buffer.value| > 0 then " {" + buffer.value + "\n}\n" + extra
    else "\n" + extra
  }

  function Last(s: string): char
    requires |s| > 0
  {
    s[|s| - 1]
  }

  predicate EndsWithBlankLine(s: string) { |s| >= 2 && s[|s| - 2..] == "\n\n" }

  /** A finished message always ends its line, and it ends with a blank line
    * exactly when it is an undo point. */
  lemma FinishEndsLine(buffer: Option<string>, undoPoint: bool)
    ensures Last(FinishText(buffer, undoPoint)) == '\n'
    ensures undoPoint <==> EndsWithBlankLine(FinishText(buffer, undoPoint))
  {
    var t := FinishText(buffer, undoPoint);
    if buffer.Some? && |buffer.value| > 0 && !undoPoint {
      assert t[|t| - 2] == '}';
    }
  }

  /** A JSON header value as the header writer sees it; a number carries its
    * `%f` rendering, which is not modelled. */
  datatype JsonValue = JsonNull | JsonString(s: string) | JsonNumber(formatted: string) | JsonBoolean(b: bool) | JsonOther

  datatype HeaderField = HeaderField(key: string, value: JsonValue)

  function HeaderValueText(v: JsonValue): Option<string>
  {
    match v
    case JsonNull => Some("null")
    case JsonString(s) => Some(s)
    case JsonNumber(f) => Some(f)
    case JsonBoolean(b) => Some(BoolText(b))
    case JsonOther => None
  }

  function HeaderLine(key: string, text: string): string { "!" + key + "=" + text + "\n" }

  /** `!key=value` lines for every field up to the first one that cannot be written. */
  function HeaderText(header: seq<HeaderField>): string
  {
    HeaderTextFrom(header, 0)
  }

  /** The header lines from field `i` on. */
  function HeaderTextFrom(header: seq<HeaderField>, i: nat): string
    requires i <= |header|
    decreases |header| - i
  {
    if i == |header| then ""
    else
      match HeaderValueText(header[i].value)
      case Some(t) => HeaderLine(header[i].key, t) + HeaderTextFrom(header, i + 1)
      case None => ""
  }

  predicate Representable(header: seq<HeaderField>)
  {
    forall k :: 0 <= k < |header| ==> HeaderValueText(header[k].value).Some?
  }

  /** The buffered continuation text, empty while no buffer exists. */
  function Buffered(m: Option<string>): string { if m.Some? then m.value else "" }

  method ContainsWhitespace(value: string) returns (b: bool)
    ensures b <==> HasWhitespace(value)
  {
    var i := 0;
    while i < |value|
      invariant 0 <= i <= |value|
      invariant forall j :: 0 <= j < i ==> !IsCSpace(value[j])
    {
      if IsCSpace(value[i]) {
        return true;
      }
      i := i + 1;
    }
    return false;
  }

  class Writer {
    /** Everything written to the main output. */
    var output: string
    /** The continuation buffer; None until a field first needs it. */
    var multiline: Option<string>

    constructor ()
      ensures output == "" && multiline == None
    {
      output := "";
      multiline := None;
    }

    /** Writes the header lines, then a blank line; fails (after writing the
      * fields before it) on the first value that has no text form. */
    method WriteHeader(header: seq<HeaderField>) returns (ok: bool)
      modifies this
      ensures ok <==> Representable(header)
      ensures output == old(output) + HeaderText(header) + (if ok then "\n" else "")
      ensures multiline == old(multiline)
    {
      var i := 0;
      while i < |header|
        invariant 0 <= i <= |header|
        invariant forall k :: 0 <= k < i ==> HeaderValueText(header[k].value).Some?
        invariant output + HeaderTextFrom(header, i) == old(output) + HeaderText(header)
        invariant multiline == old(multiline)
      {
        var text := HeaderValueText(header[i].value);
        if text.None? {
          return false;
        }
        AppendAssoc(output, HeaderLine(header[i].key, text.value), HeaderTextFrom(header, i + 1));
        output := output + HeaderLine(header[i].key, text.value);
        i := i + 1;
      }
      output := output + "\n";
      return true;
    }

    method StartMessage(contextId: Byte, name: string)
      modifies this
      ensures output == old(output) + Decimal(contextId) + " " + name
      ensures multiline == old(multiline)
    {
      output := output + Decimal(contextId) + " " + name;
    }

    method FinishMessage(undoPoint: bool)
      modifies this
      ensures output == old(output) + FinishText(old(multiline), undoPoint)
      ensures old(multiline).Some? && |old(multiline).value| > 0 ==> multiline == Some("")
      ensures old(multiline).None? || |old(multiline).value| == 0 ==> multiline == old(multiline)
    {
      var extra := if undoPoint then "\n" else "";
      if multiline.Some? && |multiline.value| > 0 {
        output := output + " {" + multiline.value + "\n}\n" + extra;
        multiline := Some("");
      } else {
        output := output + "\n" + extra;
      }
    }

    method WriteBool(key: string, value: bool)
      modifies this
      ensures output == old(output) + Field(key, BoolText(value))
      ensures multiline == old(multiline)
    {
      output := output + Field(key, if value then "true" else "false");
    }

    method WriteInt(key: string, value: I32)
      modifies this
      ensures output == old(output) + Field(key, SignedDecimal(value))
      ensures multiline == old(multiline)
    {
      output := output + Field(key, SignedDecimal(value));
    }

    method WriteUint(key: string, value: U32)
      modifies this
      ensures output == old(output) + Field(key, Decimal(value))
      ensures multiline == old(multiline)
    {
      output := output + Field(key, Decimal(value));
    }

    method WriteId(key: string, value: I32)
      modifies this
      ensures output == old(output) + Field(key, IdText(value))
      ensures multiline == old(multiline)
    {
      output := output + Field(key, "0x" + HexPadded(value % 0x1_0000_0000, 4));
    }

    method WriteArgbColor(key: string, argb: U32)
      modifies this
      ensures output == old(output) + Field(key, ColorText(argb))
      ensures multiline == old(multiline)
    {
      if argb / 0x100_0000 == 0xff {
        output := output + Field(key, "#" + HexPadded(argb % 0x100_0000, 6));
      } else {
        output := output + Field(key, "#" + HexPadded(argb, 8));
      }
    }

    /** Appends one continuation line to the (existing) buffer. */
    method BufferLine(key: string, segment: string)
      requires multiline.Some?
      modifies this
      ensures multiline == Some(old(multiline).value + ContinuationLine(key, segment))
      ensures output == old(output)
    {
      multiline := Some(multiline.value + ContinuationLine(key, segment));
    }

    /** Buffers each newline-separated segment of `value` as its own line. */
    method BufferMultilineArgument(key: string, value: string)
      modifies this
      ensures multiline == Some(Buffered(old(multiline)) + Lines(key, Split(value, '\n')))
      ensures output == old(output)
    {
      if multiline.None? {
        multiline := Some("");
      }
      ghost var base := multiline.value;
      ghost var emitted: seq<string> := [];
      assert base + Lines(key, emitted) == base;
      var start, end := 0, 0;
      while true
        invariant 0 <= start <= end <= |value|
        invariant emitted + SegmentsFrom(value, start, end) == SegmentsFrom(value, 0, 0)
        invariant multiline == Some(base + Lines(key, emitted))
        invariant base == Buffered(old(multiline)) && output == old(output)
        decreases |value| - end
      {
        if end == |value| || value[end] == '\n' {
          var segment := value[start..end];
          BufferLine(key, segment);
          LinesSnoc(key, emitted, segment);
          AppendAssoc(base, Lines(key, emitted), ContinuationLine(key, segment));
          if end < |value| {
            AppendAssoc(emitted, [segment], SegmentsFrom(value, end + 1, end + 1));
            emitted := emitted + [segment];
            start := end + 1;
          } else {
            emitted := emitted + [segment];
            break;
          }
        }
        end := end + 1;
      }
      SegmentsFromSplit(value, 0, 0);
      assert value[0..] == value;
    }

    /** Buffers `value` in lines of `lineWidth` characters. */
    method BufferWrappedArgument(key: string, value: string, lineWidth: nat)
      requires lineWidth > 0 && |value| > 0
      modifies this
      ensures multiline == Some(Buffered(old(multiline)) + Lines(key, Chunks(value, lineWidth)))
      ensures output == old(output)
    {
      if multiline.None? {
        multiline := Some("");
      }
      ghost var base := multiline.value;
      ghost var emitted: seq<string> := [];
      assert base + Lines(key, emitted) == base;
      var start, end := 0, 0;
      assert value[0..] == value;
      while true
        invariant 0 <= start <= end <= |value| && start < |value|
        invariant end - start <= lineWidth
        invariant emitted + Chunks(value[start..], lineWidth) == Chunks(value, lineWidth)
        invariant multiline == Some(base + Lines(key, emitted))
        invariant base == Buffered(old(multiline)) && output == old(output)
        decreases |value| - end
      {
        if end == |value| || end - start == lineWidth {
          var line := value[start..end];
          ChunkStep(value, start, end, lineWidth, emitted);
          BufferLine(key, line);
          LinesSnoc(key, emitted, line);
          AppendAssoc(base, Lines(key, emitted), ContinuationLine(key, line));
          emitted := emitted + [line];
          if end != |value| {
            start := end;
          } else {
            break;
          }
        }
        end := end + 1;
      }
    }

    method WriteString(key: string, value: string)
      modifies this
      ensures HasWhitespace(value) ==>
        output == old(output) && multiline == Some(Buffered(old(multiline)) + Lines(key, Split(value, '\n')))
      ensures !HasWhitespace(value) ==>
        output == old(output) + Field(key, value) && multiline == old(multiline)
    {
      var ws := ContainsWhitespace(value);
      if ws {
        BufferMultilineArgument(key, value);
      } else {
        output := output + Field(key, value);
      }
    }

    /** The blend mode is written as a string; its SVG name comes from a
      * lookup that is not part of this model. */
    method WriteBlendMode(key: string, svgName: string)
      modifies this
      ensures HasWhitespace(svgName) ==>
        output == old(output) && multiline == Some(Buffered(old(multiline)) + Lines(key, Split(svgName, '\n')))
      ensures !HasWhitespace(svgName) ==>
        output == old(output) + Field(key, svgName) && multiline == old(multiline)
    {
      WriteString(key, svgName);
    }

    /** `encoded` is the base64 encoding of the `length` payload bytes; the
      * encoder itself is not part of this model. */
    method WriteBase64(key: string, length: I32, encoded: string)
      modifies this
      ensures length <= 0 ==> output == old(output) + Field(key, "") && multiline == old(multiline)
      ensures length > 0 && |encoded| <= BASE64_LINE_WIDTH ==>
        output == old(output) + Field(key, encoded) && multiline == old(multiline)
      ensures length > 0 && |encoded| > BASE64_LINE_WIDTH ==>
        output == old(output) &&
        multiline == Some(Buffered(old(multiline)) + Lines(key, Chunks(encoded, BASE64_LINE_WIDTH)))
    {
      if length <= 0 {
        output := output + Field(key, "");
      } else if |encoded| <= BASE64_LINE_WIDTH {
        output := output + Field(key, encoded);
      } else {
        BufferWrappedArgument(key, encoded, BASE64_LINE_WIDTH);
      }
    }

    /** The first set flag opens the field; later ones add a comma and their name. */
    method AppendFlagName(key: string, name: string, first: bool)
      modifies this
      ensures output == old(output) + (if first then Field(key, name) else "," + name)
      ensures multiline == old(multiline)
    {
      if first {
        output := output + Field(key, name);
      } else {
        output := output + "," + name;
      }
    }

    method WriteFlags(key: string, value: bv32, flags: seq<Flag>)
      modifies this
      ensures output == old(output) + FlagsText(key, SetNames(value, flags))
      ensures multiline == old(multiline)
    {
      var first := true;
      var i := 0;
      while i < |flags|
        invariant 0 <= i <= |flags|
        invariant first <==> |SetNames(value, flags[..i])| == 0
        invariant output == old(output) + FlagsText(key, SetNames(value, flags[..i]))
        invariant multiline == old(multiline)
      {
        ghost var names := SetNames(value, flags[..i]);
        SetNamesSnoc(value, flags, i);
        if IsSet(value, flags[i]) {
          FlagsTextSnoc(old(output), key, names, flags[i].name);
          AppendFlagName(key, flags[i].name, first);
          assert output == old(output) + FlagsText(key, names + [flags[i].name]);
          assert |names + [flags[i].name]| > 0;
          first := false;
        } else {
          assert SetNames(value, flags[..i + 1]) == names;
        }
        i := i + 1;
      }
      FullPrefix(flags, i);
    }

    /** WRITE_LIST: ` key=` and the rendered elements separated by commas. */
    method WriteList(key: string, rendered: seq<string>)
      modifies this
      ensures output == old(output) + ListText(key, rendered)
      ensures multiline == old(multiline)
    {
      if |rendered| == 0 {
        output := output + Field(key, "");
      } else {
        output := output + Field(key, rendered[0]);
        var i := 1;
        while i < |rendered|
          invariant 1 <= i <= |rendered|
          invariant output == old(output) + Field(key, Join(rendered[..i], ','))
          invariant multiline == old(multiline)
        {
          output := output + "," + rendered[i];
          JoinSnoc(rendered[..i], rendered[i], ',');
          assert rendered[..i + 1] == rendered[..i] + [rendered[i]];
          i := i + 1;
        }
        FullPrefix(rendered, i);
      }
    }

    method WriteIdList(key: string, values: seq<I32>)
      modifies this
      ensures output == old(output) + ListText(key, IdTexts(values))
      ensures multiline == old(multiline)
    {
      WriteList(key, IdTexts(values));
    }

    /** Also the uint8 and uint16 lists, which widen each element to unsigned int. */
    method WriteUintList(key: string, values: seq<U32>)
      modifies this
      ensures output == old(output) + ListText(key, Decimals(values))
      ensures multiline == old(multiline)
    {
      WriteList(key, Decimals(values));
    }
  }

  lemma LinesSnoc(key: string, segments: seq<string>, x: string)
    ensures Lines(key, segments + [x]) == Lines(key, segments) + ContinuationLine(key, x)
  {
    assert (segments + [x])[..|segments|] == segments;
  }

  lemma AppendAssoc<T>(a: seq<T>, b: seq<T>, c: seq<T>)
    ensures (a + b) + c == a + (b + c)
  {
  }

  /** The segments the buffering loop emits from the state where the current
    * segment started at `start` and the scan has reached `end`. */
  function SegmentsFrom(value: string, start: nat, end: nat): seq<string>
    requires start <= end <= |value|
    decreases |value| - end
  {
    if end == |value| then [value[start..end]]
    else if value[end] == '\n' then [value[start..end]] + SegmentsFrom(value, end + 1, end + 1)
    else SegmentsFrom(value, start, end + 1)
  }

  /** The buffering loop emits exactly the newline-separated parts of `value`. */
  lemma {:induction false} SegmentsFromSplit(value: string, start: nat, end: nat)
    requires start <= end <= |value|
    requires forall j :: start <= j < end ==> value[j] != '\n'
    ensures SegmentsFrom(value, start, end) == Split(value[start..], '\n')
    decreases |value| - end
  {
    if end == |value| {
      SegmentSplit(value, start, end);
    } else if value[end] == '\n' {
      SegmentsFromSplit(value, end + 1, end + 1);
      SegmentsAtNewline(value, start, end);
    } else {
      ScanPastChar(value, start, end);
      SegmentsFromSplit(value, start, end + 1);
    }
  }

  /** At a newline the loop closes the current segment and starts the next. */
  lemma SegmentsAtNewline(value: string, start: nat, end: nat)
    requires start <= end < |value| && value[end] == '\n'
    requires forall j :: start <= j < end ==> value[j] != '\n'
    requires SegmentsFrom(value, end + 1, end + 1) == Split(value[end + 1..], '\n')
    ensures SegmentsFrom(value, start, end) == Split(value[start..], '\n')
  {
    SegmentSplit(value, start, end);
  }

  /** Scanning past a character other than a newline stays within the first
    * segment. */
  lemma ScanPastChar(value: string, start: nat, end: nat)
    requires start <= end < |value| && value[end] != '\n'
    requires forall j :: start <= j < end ==> value[j] != '\n'
    ensures forall j :: start <= j < end + 1 ==> value[j] != '\n'
    ensures SegmentsFrom(value, start, end) == SegmentsFrom(value, start, end + 1)
  {
  }

  lemma SegmentSplit(value: string, start: nat, end: nat)
    requires start <= end <= |value| && (end == |value| || value[end] == '\n')
    requires forall j :: start <= j < end ==> value[j] != '\n'
    ensures Split(value[start..], '\n') ==
      [value[start..end]] + (if end == |value| then [] else Split(value[end + 1..], '\n'))
  {
    var rest := value[start..];
    var i := end - start;
    assert FirstIndexOf(rest, '\n') == i by {
      FirstIndexAt(rest, '\n', i);
    }
    if end < |value| {
      assert Split(rest, '\n') == [rest[..i]] + Split(rest[i + 1..], '\n');
      assert rest[..i] == value[start..end];
      assert rest[i + 1..] == value[end + 1..];
    } else {
      assert Split(rest, '\n') == [rest];
      assert rest == value[start..end];
    }
  }

  /** One step of the wrapping loop: the line ending at `end` is the first
    * chunk of what is left to wrap. */
  lemma ChunkStep(value: string, start: nat, end: nat, width: nat, emitted: seq<string>)
    requires width > 0 && start <= end <= |value| && start < |value|
    requires end - start <= width && (end == |value| || end - start == width)
    requires emitted + Chunks(value[start..], width) == Chunks(value, width)
    ensures end == |value| ==> emitted + [value[start..end]] == Chunks(value, width)
    ensures end < |value| ==> (emitted + [value[start..end]]) + Chunks(value[end..], width) == Chunks(value, width)
  {
    var rest := value[start..];
    if end < |value| {
      assert rest[..width] == value[start..end];
      assert rest[width..] == value[end..];
      AppendAssoc(emitted, [value[start..end]], Chunks(value[end..], width));
    } else {
      assert rest == value[start..end];
    }
  }

}
