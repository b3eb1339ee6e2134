/** The output file name `fake_gas` builds with strtok: for a snapshot
    `snapshot_005` it is `snapshot-fakegas_005`, and for one file
    `snapshot_005.1` of a multi-file snapshot, `snapshot-fakegas_005.1`. */
module Naming {
  import opened Words

  datatype Option<T> = None | Some(value: T)

  /** One strtok result: the token, and where the next call resumes. */
  datatype Token = Token(text: string, rest: string)

  /** The delimiter sets passed to strtok. */
  const Underscore: set<char> := {'_'}
  const UnderscoreDot: set<char> := {'_', '.'}

  /** Length of the run of delimiters at the start of s. */
  function SkipDelims(s: string, d: set<char>): (n: nat)
    ensures n <= |s|
    ensures forall i :: 0 <= i < n ==> s[i] in d
    ensures n < |s| ==> s[n] !in d
  {
    if s == [] || s[0] !in d then 0 else 1 + SkipDelims(s[1..], d)
  }

  /** Length of the run of non-delimiters at the start of s. */
  function TokenEnd(s: string, d: set<char>): (n: nat)
    ensures n <= |s|
    ensures forall i :: 0 <= i < n ==> s[i] !in d
    ensures n < |s| ==> s[n] in d
  {
    if s == [] || s[0] in d then 0 else 1 + TokenEnd(s[1..], d)
  }

  /** `strtok(s, d)`, with the string it keeps for the next `strtok(NULL, ...)`:
      skip leading delimiters, take characters up to the next delimiter,
      and consume that one delimiter. None is the NULL result. */
  function StrTok(s: string, d: set<char>): (r: Option<Token>)
    ensures r.None? <==> forall i :: 0 <= i < |s| ==> s[i] in d
    ensures r.Some? ==> r.value.text != [] && forall i :: 0 <= i < |r.value.text| ==> r.value.text[i] !in d
  {
    var a := SkipDelims(s, d);
    if a == |s| then None
    else
      var t := s[a..];
      var n := TokenEnd(t, d);
      assert t[0] !in d;
      Some(Token(t[..n], if n < |t| then t[n + 1..] else []))
  }

  /** Where strtok's token and resume point lie in s: the token directly
      follows the leading delimiters, and the next call resumes after the
      one delimiter that ends it, or at the end of s. */
  lemma {:induction false} StrTokRest(s: string, d: set<char>)
    ensures StrTok(s, d).Some? ==>
      var a := SkipDelims(s, d);
      var e := a + |StrTok(s, d).value.text|;
      e <= |s| && s[a..e] == StrTok(s, d).value.text &&
      ((e == |s| && StrTok(s, d).value.rest == []) ||
       (e < |s| && s[e] in d && StrTok(s, d).value.rest == s[e + 1..]))
    ensures StrTok(s, d).Some? ==> StrTok(s, d).value.rest == Resume(s, d)
  {
    var a := SkipDelims(s, d);
    if a < |s| {
      var n := TokenEnd(s[a..], d);
      assert s[a..][..n] == s[a..a + n];
      if n < |s[a..]| {
        assert s[a..][n + 1..] == s[a + n + 1..];
        assert s[a..][n] == s[a + n];
      }
    }
  }

  /** The maximal runs of non-delimiter characters of s, in order, built one
      character at a time: the reference strtok is measured against. */
  function Split(s: string, d: set<char>): (fs: seq<string>)
    ensures s != [] && s[0] !in d ==> fs != [] && fs[0] != [] && fs[0][0] == s[0]
  {
    if s == [] then []
    else if s[0] in d then Split(s[1..], d)
    else if |s| == 1 || s[1] in d then [[s[0]]] + Split(s[1..], d)
    else
      var f := Split(s[1..], d);
      [[s[0]] + f[0]] + f[1..]
  }

  /** Every field is non-empty and free of delimiters. */
  lemma {:induction false} SplitFields(s: string, d: set<char>)
    ensures forall j :: 0 <= j < |Split(s, d)| ==>
      Split(s, d)[j] != [] && forall i :: 0 <= i < |Split(s, d)[j]| ==> Split(s, d)[j][i] !in d
  {
    if s != [] {
      SplitFields(s[1..], d);
      if s[0] !in d && !(|s| == 1 || s[1] in d) {
        var f := Split(s[1..], d);
        forall i | 0 <= i < |[s[0]] + f[0]| ensures ([s[0]] + f[0])[i] !in d {
          if i > 0 {
            assert ([s[0]] + f[0])[i] == f[0][i - 1];
          }
        }
      }
    }
  }

  /** A string that starts with a non-delimiter splits into its leading run
      and the fields of what follows it. */
  lemma {:induction false} SplitRun(s: string, d: set<char>)
    requires s != [] && s[0] !in d
    ensures Split(s, d) == [s[..TokenEnd(s, d)]] + Split(s[TokenEnd(s, d)..], d)
  {
    var n := TokenEnd(s, d);
    if |s| == 1 || s[1] in d {
      assert n == 1;
      assert s[..1] == [s[0]];
    } else {
      SplitRun(s[1..], d);
      assert TokenEnd(s[1..], d) == n - 1;
      assert s[1..][..n - 1] == s[1..n];
      assert s[1..][n - 1..] == s[n..];
      assert [s[0]] + s[1..n] == s[..n];
    }
  }

  /** strtok agrees with the reference: it returns NULL exactly when there is
      no field, and otherwise the first field, resuming at the others. */
  lemma {:induction false} StrTokSplit(s: string, d: set<char>)
    ensures StrTok(s, d).None? <==> Split(s, d) == []
    ensures StrTok(s, d).Some? ==>
      Split(s, d) == [StrTok(s, d).value.text] + Split(StrTok(s, d).value.rest, d)
  {
    if s == [] {
    } else if s[0] in d {
      StrTokSplit(s[1..], d);
      assert SkipDelims(s, d) == 1 + SkipDelims(s[1..], d);
      assert s[1..][SkipDelims(s[1..], d)..] == s[SkipDelims(s, d)..];
    } else {
      SplitRun(s, d);
      var n := TokenEnd(s, d);
      assert s[0..] == s;
      if n < |s| {
        assert Split(s[n..], d) == Split(s[n..][1..], d);
        assert s[n..][1..] == s[n + 1..];
      }
    }
  }

  /** The name `fake_gas` opens for writing: the first `_` token,
      `-fakegas_`, the second token (split on `_.` when the snapshot has
      several files, so that the file number is left over), and for several
      files `.` and the third token. None when strtok would return NULL and
      the C code would pass it to strcpy or strcat. */
  function OutputName(filename: string, numFiles: Int32): Option<string>
  {
    match StrTok(filename, Underscore)
    case None => None
    case Some(t1) =>
      match StrTok(t1.rest, if numFiles > 1 then UnderscoreDot else Underscore)
      case None => None
      case Some(t2) =>
        var name := t1.text + "-fakegas_" + t2.text;
        if numFiles > 1 then
          match StrTok(t2.rest, Underscore)
          case None => None
          case Some(t3) => Some(name + "." + t3.text)
        else Some(name)
  }

  /** For a single-file snapshot the name is built from the first two
      `_`-fields of the file name, and exists exactly when there are two. */
  lemma {:induction false} OutputNameSingle(filename: string, numFiles: Int32)
    requires numFiles <= 1
    ensures var fs := Split(filename, Underscore);
      OutputName(filename, numFiles) ==
        if |fs| >= 2 then Some(fs[0] + "-fakegas_" + fs[1]) else None
  {
    StrTokSplit(filename, Underscore);
    match StrTok(filename, Underscore)
    case None =>
    case Some(t1) =>
      StrTokSplit(t1.rest, Underscore);
  }

  /** Where a strtok call resumes in s after the first field: past the
      leading delimiters, the field, and the one delimiter that ends it. */
  function Resume(s: string, d: set<char>): (r: string)
    ensures |r| <= |s| && r == s[|s| - |r|..]
  {
    var a := SkipDelims(s, d);
    var e := a + TokenEnd(s[a..], d);
    if e < |s| then s[e + 1..] else []
  }

  /** For a multi-file snapshot the second token stops at `.` as well, and
      the third is the rest up to the next `_`: the name exists exactly when
      each of the three splits has a field, and is built from their first
      fields. */
  lemma {:induction false} OutputNameMulti(filename: string, numFiles: Int32)
    requires numFiles > 1
    ensures var fs := Split(filename, Underscore);
      var rest1 := Resume(filename, Underscore);
      var gs := Split(rest1, UnderscoreDot);
      var ks := Split(Resume(rest1, UnderscoreDot), Underscore);
      OutputName(filename, numFiles) ==
        if fs != [] && gs != [] && ks != [] then Some(fs[0] + "-fakegas_" + gs[0] + "." + ks[0]) else None
  {
    StrTokSplit(filename, Underscore);
    StrTokRest(filename, Underscore);
    match StrTok(filename, Underscore)
    case None =>
    case Some(t1) =>
      StrTokSplit(t1.rest, UnderscoreDot);
      StrTokRest(t1.rest, UnderscoreDot);
      match StrTok(t1.rest, UnderscoreDot)
      case None =>
      case Some(t2) =>
        StrTokSplit(t2.rest, Underscore);
  }
}
