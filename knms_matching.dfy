/**
 * The local part of the remote name matcher (KNMS): the de-duplicated list
 * of submitted names that is sent and that names the cache file, and the
 * post-processing of the records that come back.  The HTTP request and the
 * cache file are not modelled: the records arrive as an input.
 */
module KnmsMatching {
  import opened Base
  import opened Strs

  /** One row of a KNMS reply. */
  datatype KnmsRecord = KnmsRecord(submitted: Cell, matchState: Cell, ipniId: Cell, matchedName: Cell)

  /** The loop building unique_name_list: each name once, in order of first occurrence. */
  method UniqueNameList(names: seq<string>) returns (u: seq<string>)
    ensures u == Dedup(names)
  {
    u := [];
    var i := 0;
    while i < |names|
      invariant 0 <= i <= |names|
      invariant u == Dedup(names[..i])
    {
      assert names[..i + 1][..i] == names[..i];
      if names[i] !in u {
        u := u + [names[i]];
      }
      i := i + 1;
    }
    assert names[..i] == names;
  }

  /** The cache file name, "knmns_matches_" + md5(str(unique list)) + ".csv", with the digest as a parameter. */
  function CacheFileName(names: seq<string>, md5: string -> string): string
  {
    "knmns_matches_" + md5(PyListRepr(Dedup(names))) + ".csv"
  }

  /** Submitting a name again does not change the cache file, whatever the digest. */
  lemma CacheFileNameIgnoresRepeats(names: seq<string>, x: string, md5: string -> string)
    requires x in names
    ensures CacheFileName(names + [x], md5) == CacheFileName(names, md5)
  {
    DedupAppendSeen(names, x);
  }

  /** The last non-missing value of s, if any. */
  function LastPresent(s: seq<Cell>): Cell
  {
    if |s| == 0 then None
    else if s[|s| - 1].Some? then s[|s| - 1]
    else LastPresent(s[..|s| - 1])
  }

  /** LastPresent is the value at the last position holding one, and missing when there is none. */
  lemma {:induction false} LastPresentIsLast(s: seq<Cell>)
    ensures LastPresent(s).None? <==> forall j :: 0 <= j < |s| ==> s[j].None?
    ensures LastPresent(s).Some? ==>
      exists j :: 0 <= j < |s| && s[j] == LastPresent(s) && forall k :: j < k < |s| ==> s[k].None?
  {
    LastPresentNone(s);
    if LastPresent(s).Some? {
      var j := LastPresentAt(s);
    }
  }

  lemma {:induction false} LastPresentNone(s: seq<Cell>)
    ensures LastPresent(s).None? <==> forall j :: 0 <= j < |s| ==> s[j].None?
  {
    if |s| > 0 && s[|s| - 1].None? {
      var t := s[..|s| - 1];
      LastPresentNone(t);
      assert forall j :: 0 <= j < |t| ==> s[j] == t[j];
    }
  }

  lemma {:induction false} LastPresentAt(s: seq<Cell>) returns (j: nat)
    requires LastPresent(s).Some?
    ensures j < |s| && s[j] == LastPresent(s) && forall k :: j < k < |s| ==> s[k].None?
  {
    if s[|s| - 1].None? {
      var t := s[..|s| - 1];
      j := LastPresentAt(t);
      assert s[j] == t[j];
      assert forall k :: j < k < |t| ==> s[k] == t[k];
    } else {
      j := |s| - 1;
    }
  }

  /** Series.ffill: each position takes the last non-missing value at or above it. */
  method ForwardFill(col: seq<Cell>) returns (r: seq<Cell>)
    ensures |r| == |col|
    ensures forall i :: 0 <= i < |col| ==> r[i] == LastPresent(col[..i + 1])
  {
    r := [];
    var last: Cell := None;
    var i := 0;
    while i < |col|
      invariant 0 <= i <= |col|
      invariant |r| == i
      invariant last == LastPresent(col[..i])
      invariant forall k :: 0 <= k < i ==> r[k] == LastPresent(col[..k + 1])
    {
      assert col[..i + 1][..i] == col[..i];
      if col[i].Some? {
        last := col[i];
      }
      r := r + [last];
      i := i + 1;
    }
  }

  /** `replace('', nan)` on one cell. */
  function EmptyToMissing(c: Cell): (r: Cell)
    ensures r.None? <==> (c.None? || c == Some(""))
    ensures r.Some? ==> r == c
  {
    if c == Some("") then None else c
  }

  /** One reply record as a row of the four headings; shorter records are padded with missing values. */
  function ToRecord(fields: seq<string>): KnmsRecord
    requires |fields| <= 4
  {
    var f := (i: nat) => if i < |fields| then Some(fields[i]) else None;
    KnmsRecord(f(0), f(1), f(2), f(3))
  }

  function Cleaned(r: KnmsRecord): KnmsRecord
  {
    KnmsRecord(EmptyToMissing(r.submitted), EmptyToMissing(r.matchState), EmptyToMissing(r.ipniId), EmptyToMissing(r.matchedName))
  }

  /** The reply as a table, with '' turned into missing, before the fill. */
  function RawTable(content: seq<seq<string>>): (rs: seq<KnmsRecord>)
    requires forall i :: 0 <= i < |content| ==> |content[i]| <= 4
    ensures |rs| == |content|
  {
    seq(|content|, i requires 0 <= i < |content| => Cleaned(ToRecord(content[i])))
  }

  function SubmittedColumn(rs: seq<KnmsRecord>): seq<Cell>
  {
    seq(|rs|, i requires 0 <= i < |rs| => rs[i].submitted)
  }

  function MatchStateColumn(rs: seq<KnmsRecord>): seq<Cell>
  {
    seq(|rs|, i requires 0 <= i < |rs| => rs[i].matchState)
  }

  /** The reply table after the forward fill of submitted and match_state. */
  function ReplyRecords(content: seq<seq<string>>): (rs: seq<KnmsRecord>)
    requires forall i :: 0 <= i < |content| ==> |content[i]| <= 4
    ensures |rs| == |content|
  {
    var raw := RawTable(content);
    seq(|raw|, i requires 0 <= i < |raw| =>
      KnmsRecord(LastPresent(SubmittedColumn(raw)[..i + 1]), LastPresent(MatchStateColumn(raw)[..i + 1]),
                 raw[i].ipniId, raw[i].matchedName))
  }

  /**
   * get_knms_name_matches after the reply: build the table (two-field
   * records get missing ipni_id and matched_name; a record with more than
   * four fields is a server error), turn '' into missing, then forward-fill
   * submitted and match_state.
   */
  method RecordsFromReply(content: seq<seq<string>>) returns (res: Result<seq<KnmsRecord>>)
    ensures res.Err? <==> exists i :: 0 <= i < |content| && |content[i]| > 4
    ensures res.Ok? ==> |res.value| == |content|
    ensures res.Ok? && (forall i :: 0 <= i < |content| ==> |content[i]| == 2) ==>
      forall i :: 0 <= i < |content| ==> res.value[i].ipniId.None? && res.value[i].matchedName.None?
    ensures res.Ok? ==> forall i :: 0 <= i < |content| ==>
      res.value[i].ipniId == RawTable(content)[i].ipniId
      && res.value[i].matchedName == RawTable(content)[i].matchedName
      && res.value[i].submitted == LastPresent(SubmittedColumn(RawTable(content))[..i + 1])
      && res.value[i].matchState == LastPresent(MatchStateColumn(RawTable(content))[..i + 1])
    ensures res.Ok? ==> res.value == ReplyRecords(content)
  {
    if exists i :: 0 <= i < |content| && |content[i]| > 4 {
      return Err("records not retrievd due to server error");
    }
    var raw := RawTable(content);
    var subs := ForwardFill(SubmittedColumn(raw));
    var states := ForwardFill(MatchStateColumn(raw));
    var recs := seq(|raw|, i requires 0 <= i < |raw| => KnmsRecord(subs[i], states[i], raw[i].ipniId, raw[i].matchedName));
    res := Ok(recs);
  }
}
