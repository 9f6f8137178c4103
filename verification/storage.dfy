/**
 * What the tool reads from and writes to disk, with the file system itself
 * taken out: the line filter of load_jsonl over the lines of the dataset
 * file, and the progress sidecar file of load_progress and save_progress.
 * JSON decoding is a parameter of the model.
 */
module Storage {
  import opened Wrappers
  import opened Records

  /** Python's `str.isspace()` on one character: the characters `str.strip()` removes. */
  predicate IsSpace(c: char) {
    var n := c as int;
    || (0x09 <= n <= 0x0D) || (0x1C <= n <= 0x1F) || n == 0x20 || n == 0x85 || n == 0xA0
    || n == 0x1680 || (0x2000 <= n <= 0x200A) || n == 0x2028 || n == 0x2029 || n == 0x202F
    || n == 0x205F || n == 0x3000
  }

  /** `s` shorter its leading whitespace. */
  function TrimStart(s: string): (r: string)
    ensures |r| <= |s| && r == s[|s| - |r|..]
    ensures forall k :: 0 <= k < |s| - |r| ==> IsSpace(s[k])
    ensures |r| > 0 ==> !IsSpace(r[0])
    decreases |s|
  {
    if |s| > 0 && IsSpace(s[0]) then TrimStart(s[1..]) else s
  }

  /** `s` shorter its trailing whitespace. */
  function TrimEnd(s: string): (r: string)
    ensures |r| <= |s| && r == s[..|r|]
    ensures forall k :: |r| <= k < |s| ==> IsSpace(s[k])
    ensures |r| > 0 ==> !IsSpace(r[|r| - 1])
    decreases |s|
  {
    if |s| > 0 && IsSpace(s[|s| - 1]) then TrimEnd(s[..|s| - 1]) else s
  }

  /** How many whitespace characters `s.strip()` removes from the front of `s`. */
  function LeadingSpace(s: string): nat {
    |s| - |TrimStart(s)|
  }

  /**
   * Python's `s.strip()`: the infix of `s` after its leading whitespace that
   * neither starts nor ends with whitespace, empty exactly when `s` is all whitespace.
   */
  function Strip(s: string): (r: string)
    ensures LeadingSpace(s) + |r| <= |s| && r == s[LeadingSpace(s)..LeadingSpace(s) + |r|]
    ensures forall k :: 0 <= k < LeadingSpace(s) ==> IsSpace(s[k])
    ensures forall k :: LeadingSpace(s) + |r| <= k < |s| ==> IsSpace(s[k])
    ensures |r| > 0 ==> !IsSpace(r[0]) && !IsSpace(r[|r| - 1])
    ensures r == [] <==> forall k :: 0 <= k < |s| ==> IsSpace(s[k])
  {
    TrimEnd(TrimStart(s))
  }

  /** The lines load_jsonl skips: `line.strip()` is empty. */
  predicate IsBlank(line: string) {
    Strip(line) == []
  }

  /** The number of lines load_jsonl decodes. */
  function NonBlankCount(lines: seq<string>): nat
    decreases |lines|
  {
    if |lines| == 0 then 0
    else (if IsBlank(lines[0]) then 0 else 1) + NonBlankCount(lines[1..])
  }

  /**
   * The loop of load_jsonl over an existing file: each non-blank line is
   * stripped and decoded, in order; one line that does not decode makes the
   * whole load fail.
   */
  function DecodeLines(lines: seq<string>, decode: string -> Option<Record>): (r: Option<seq<Record>>)
    ensures r.Some? <==> forall k :: 0 <= k < |lines| && !IsBlank(lines[k]) ==> decode(Strip(lines[k])).Some?
    ensures r.Some? ==> |r.value| == NonBlankCount(lines)
    ensures (forall k :: 0 <= k < |lines| ==> IsBlank(lines[k])) ==> r == Some([])
    ensures r.Some? ==> forall k :: 0 <= k < |lines| && !IsBlank(lines[k]) ==>
              NonBlankCount(lines[..k]) < |r.value|
              && decode(Strip(lines[k])) == Some(r.value[NonBlankCount(lines[..k])])
    decreases |lines|
  {
    if |lines| == 0 then Some([])
    else
      var rest := DecodeLines(lines[1..], decode);
      assert forall k :: 1 <= k < |lines| ==> lines[k] == lines[1..][k - 1];
      if IsBlank(lines[0]) then
        if rest.Some? then RowsAfterLine(lines, decode, rest.value, rest.value); rest else rest
      else match decode(Strip(lines[0]))
        case None => None
        case Some(rec) =>
          if rest.Some? then RowsAfterLine(lines, decode, rest.value, [rec] + rest.value); Some([rec] + rest.value)
          else None
  }

  /** Row positions after one more line in front: a blank line shifts nothing, a decoded one shifts by one. */
  lemma RowsAfterLine(lines: seq<string>, decode: string -> Option<Record>, rest: seq<Record>, rows: seq<Record>)
    requires |lines| > 0
    requires forall k :: 0 <= k < |lines| - 1 && !IsBlank(lines[1..][k]) ==>
               NonBlankCount(lines[1..][..k]) < |rest|
               && decode(Strip(lines[1..][k])) == Some(rest[NonBlankCount(lines[1..][..k])])
    requires IsBlank(lines[0]) ==> rows == rest
    requires !IsBlank(lines[0]) ==> decode(Strip(lines[0])).Some? && rows == [decode(Strip(lines[0])).value] + rest
    ensures forall k :: 0 <= k < |lines| && !IsBlank(lines[k]) ==>
              NonBlankCount(lines[..k]) < |rows|
              && decode(Strip(lines[k])) == Some(rows[NonBlankCount(lines[..k])])
  {
    forall k | 0 <= k < |lines| && !IsBlank(lines[k])
      ensures NonBlankCount(lines[..k]) < |rows|
      ensures decode(Strip(lines[k])) == Some(rows[NonBlankCount(lines[..k])])
    {
      var head := if IsBlank(lines[0]) then 0 else 1;
      if k == 0 {
        assert lines[..0] == [];
      } else {
        var j := k - 1;
        var tail := lines[1..];
        assert tail[j] == lines[k];
        var n := NonBlankCount(tail[..j]);
        assert n < |rest| && decode(Strip(tail[j])) == Some(rest[n]);
        assert lines[..k][0] == lines[0];
        assert lines[..k][1..] == tail[..j];
        assert NonBlankCount(lines[..k]) == head + n;
      }
    }
  }

  /** Blank lines may stand anywhere in the file shorter changing what is loaded. */
  lemma {:induction false} BlankLineIgnored(before: seq<string>, blank: string, after: seq<string>,
                                            decode: string -> Option<Record>)
    requires IsBlank(blank)
    ensures DecodeLines(before + [blank] + after, decode) == DecodeLines(before + after, decode)
    decreases |before|
  {
    var longer, shorter := before + [blank] + after, before + after;
    if |before| == 0 {
      assert longer[0] == blank && longer[1..] == shorter;
      DecodeLinesCons(longer, decode);
    } else {
      assert longer[0] == shorter[0] == before[0];
      assert longer[1..] == before[1..] + [blank] + after;
      assert shorter[1..] == before[1..] + after;
      BlankLineIgnored(before[1..], blank, after, decode);
      DecodeLinesCons(longer, decode);
      DecodeLinesCons(shorter, decode);
    }
  }

  /** One line in front of the rest, as the load loop handles it. */
  function DecodeFront(line: string, rest: Option<seq<Record>>, decode: string -> Option<Record>): Option<seq<Record>> {
    if IsBlank(line) then rest
    else match decode(Strip(line))
      case None => None
      case Some(rec) => if rest.Some? then Some([rec] + rest.value) else None
  }

  lemma DecodeLinesCons(lines: seq<string>, decode: string -> Option<Record>)
    requires |lines| > 0
    ensures DecodeLines(lines, decode) == DecodeFront(lines[0], DecodeLines(lines[1..], decode), decode)
  {
  }

  /** load_jsonl: a missing file loads as no rows, an existing one as its decoded lines. */
  function LoadJsonl(file: Option<seq<string>>, decode: string -> Option<Record>): (r: Option<seq<Record>>)
    ensures file.None? ==> r == Some([])
    ensures file.Some? && (forall k :: 0 <= k < |file.value| ==> IsBlank(file.value[k])) ==> r == Some([])
    ensures file.Some? ==> (r.Some? <==> forall k :: 0 <= k < |file.value| && !IsBlank(file.value[k]) ==>
                                           decode(Strip(file.value[k])).Some?)
  {
    match file
    case None => Some([])
    case Some(lines) => DecodeLines(lines, decode)
  }

  /**
   * The progress sidecar file: absent, unreadable (not JSON, or not an object),
   * or an object whose "last_row" key may be missing.
   */
  datatype ProgressFile = Absent | Unreadable | Stored(lastRow: Option<int>)

  /** load_progress: the stored "last_row", 0 in every other case. */
  function LoadProgress(f: ProgressFile): (row: int)
    ensures f.Stored? && f.lastRow.Some? ==> row == f.lastRow.value
    ensures !(f.Stored? && f.lastRow.Some?) ==> row == 0
  {
    match f
    case Stored(Some(row)) => row
    case _ => 0
  }

  /** save_progress: the file it writes reads back as the row it was given. */
  function SaveProgress(row: int): (f: ProgressFile)
    ensures LoadProgress(f) == row
  {
    Stored(Some(row))
  }
}
