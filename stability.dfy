/** `get_stable_files`: the inbox scan that picks the files with a supported
    extension whose checksum can be taken and has not changed after a pause.
    The checksum is `calculate_md5`, which gives nothing for a file that cannot
    be read or is larger than the configured limit. */
module Stability {
  import opened Common
  import opened Strings

  /** What reading a directory entry gives at one moment: nothing (it vanished,
      is a directory, or cannot be opened) or its bytes. */
  datatype Observation = Unreadable | Readable(content: seq<bv8>)

  /** One name from the directory listing with what the two checksum passes saw:
      `first` before the pause, `second` after it. */
  datatype DirEntry = DirEntry(name: string, first: Observation, second: Observation)

  /** `1024 * 1024`: the size limit is given in mebibytes. */
  const BytesPerMb: int := 1048576

  /** Lines 113-124: `calculate_md5`. The digest itself is the parameter `md5`;
      a file over `maxMb` mebibytes, or one that cannot be read, has none. */
  function Checksum(obs: Observation, maxMb: int, md5: seq<bv8> -> string): (r: Option<string>)
    ensures r.Some? <==> obs.Readable? && |obs.content| <= maxMb * BytesPerMb
    ensures r.Some? ==> r.value == md5(obs.content)
  {
    match obs
    case Unreadable => None
    case Readable(content) =>
      if |content| > maxMb * BytesPerMb then None else Some(md5(content))
  }

  /** Python truth value of `cksum`: present and not the empty string. */
  predicate Truthy(c: Option<string>)
  {
    c.Some? && c.value != ""
  }

  /** Line 132: `any(f.lower().endswith(ext) for ext in exts)`. Only the name is
      lowercased, so an extension written with capitals never matches. */
  predicate HasSupportedExtension(name: string, exts: seq<string>)
  {
    exists i :: 0 <= i < |exts| && EndsWith(Lower(name), exts[i])
  }

  /** `os.path.join(dir, name)` for two parts, as on POSIX: an absolute `name`
      replaces `dir`, otherwise a `/` separates them unless `dir` is empty or
      already ends with one. */
  function JoinPath(dir: string, name: string): (r: string)
    ensures EndsWith(r, name)
    ensures !StartsWith(name, "/") ==> StartsWith(r, dir) && |r| >= |dir| + |name|
  {
    if StartsWith(name, "/") then name
    else if dir == "" || EndsWith(dir, "/") then dir + name
    else dir + "/" + name
  }

  /** Different names in one directory give different paths. */
  lemma JoinPathInjective(dir: string, a: string, b: string)
    requires !StartsWith(a, "/") && !StartsWith(b, "/")
    ensures JoinPath(dir, a) == JoinPath(dir, b) ==> a == b
  {
    var p := JoinPath(dir, a);
    var q := JoinPath(dir, b);
    var sep := if dir == "" || EndsWith(dir, "/") then dir else dir + "/";
    assert p == sep + a && q == sep + b;
    assert a == p[|sep|..] && b == q[|sep|..];
  }

  /** Lines 138-143, the test one entry must pass: its first checksum exists, is
      not empty, and equals the second. */
  predicate Stable(e: DirEntry, maxMb: int, md5: seq<bv8> -> string)
  {
    var c := Checksum(e.first, maxMb, md5);
    Truthy(c) && c == Checksum(e.second, maxMb, md5)
  }

  /** A stable file was readable and within the size limit both times, and its
      digest is non-empty and did not change; an oversized or unreadable file is
      never stable. */
  lemma StableMeaning(e: DirEntry, maxMb: int, md5: seq<bv8> -> string)
    ensures Stable(e, maxMb, md5) <==>
      && e.first.Readable? && e.second.Readable?
      && |e.first.content| <= maxMb * BytesPerMb
      && |e.second.content| <= maxMb * BytesPerMb
      && md5(e.first.content) != ""
      && md5(e.first.content) == md5(e.second.content)
  {
  }

  /** The keys of the `files` dictionary (lines 129-133): the listed entries with
      a supported extension, in listing order. */
  function Candidates(entries: seq<DirEntry>, exts: seq<string>): (r: seq<DirEntry>)
    ensures |r| <= |entries|
  {
    if |entries| == 0 then []
    else
      var p := entries[..|entries| - 1];
      var e := entries[|entries| - 1];
      if HasSupportedExtension(e.name, exts) then Candidates(p, exts) + [e] else Candidates(p, exts)
  }

  lemma {:induction false} CandidatesMembers(entries: seq<DirEntry>, exts: seq<string>)
    ensures forall e :: e in Candidates(entries, exts) <==> e in entries && HasSupportedExtension(e.name, exts)
  {
    if |entries| > 0 {
      var p := entries[..|entries| - 1];
      CandidatesMembers(p, exts);
      assert entries == p + [entries[|entries| - 1]];
    }
  }

  /** The first-pass checksums of the candidates. */
  function FirstChecksums(files: seq<DirEntry>, maxMb: int, md5: seq<bv8> -> string): (r: seq<Option<string>>)
    ensures |r| == |files|
    ensures forall k :: 0 <= k < |files| ==> r[k] == Checksum(files[k].first, maxMb, md5)
  {
    seq(|files|, k requires 0 <= k < |files| => Checksum(files[k].first, maxMb, md5))
  }

  /** The `stable` list (lines 137-143): the path of every candidate that passes
      the checksum test, in order. */
  function Confirmed(dir: string, cands: seq<DirEntry>, maxMb: int, md5: seq<bv8> -> string): (r: seq<string>)
    ensures |r| <= |cands|
  {
    if |cands| == 0 then []
    else
      var p := Confirmed(dir, cands[..|cands| - 1], maxMb, md5);
      var e := cands[|cands| - 1];
      if Stable(e, maxMb, md5) then p + [JoinPath(dir, e.name)] else p
  }

  /** What `get_stable_files` returns for a listing. */
  function StableFiles(dir: string, entries: seq<DirEntry>, exts: seq<string>, maxMb: int,
                       md5: seq<bv8> -> string): seq<string>
  {
    Confirmed(dir, Candidates(entries, exts), maxMb, md5)
  }

  lemma ConfirmedStep(dir: string, cands: seq<DirEntry>, k: nat, maxMb: int, md5: seq<bv8> -> string)
    requires k < |cands|
    ensures Confirmed(dir, cands[..k + 1], maxMb, md5)
         == Confirmed(dir, cands[..k], maxMb, md5)
            + if Stable(cands[k], maxMb, md5) then [JoinPath(dir, cands[k].name)] else []
  {
    assert cands[..k + 1][..k] == cands[..k];
  }

  /** Every confirmed path comes from a stable candidate. */
  lemma {:induction false} ConfirmedSource(dir: string, cands: seq<DirEntry>, maxMb: int,
                                          md5: seq<bv8> -> string, p: string)
    returns (e: DirEntry)
    requires p in Confirmed(dir, cands, maxMb, md5)
    ensures e in cands && Stable(e, maxMb, md5) && p == JoinPath(dir, e.name)
  {
    var q := cands[..|cands| - 1];
    var last := cands[|cands| - 1];
    assert cands == q + [last];
    if p in Confirmed(dir, q, maxMb, md5) {
      e := ConfirmedSource(dir, q, maxMb, md5, p);
    } else {
      e := last;
    }
  }

  /** Every stable candidate's path is confirmed. */
  lemma {:induction false} ConfirmedComplete(dir: string, cands: seq<DirEntry>, maxMb: int,
                                            md5: seq<bv8> -> string, e: DirEntry)
    requires e in cands && Stable(e, maxMb, md5)
    ensures JoinPath(dir, e.name) in Confirmed(dir, cands, maxMb, md5)
  {
    var q := cands[..|cands| - 1];
    var last := cands[|cands| - 1];
    assert cands == q + [last];
    if e != last {
      assert e in q;
      ConfirmedComplete(dir, q, maxMb, md5, e);
    }
  }

  /** Lines 127-145: a path is returned exactly when it names a listed entry whose
      lowercased name ends with a configured extension and which is stable. In
      particular an oversized or unreadable file is never returned. */
  lemma StableFilesMembers(dir: string, entries: seq<DirEntry>, exts: seq<string>, maxMb: int,
                           md5: seq<bv8> -> string, p: string)
    ensures p in StableFiles(dir, entries, exts, maxMb, md5) <==>
      exists e :: e in entries && HasSupportedExtension(e.name, exts) && Stable(e, maxMb, md5)
               && p == JoinPath(dir, e.name)
  {
    var cands := Candidates(entries, exts);
    CandidatesMembers(entries, exts);
    if p in Confirmed(dir, cands, maxMb, md5) {
      var e := ConfirmedSource(dir, cands, maxMb, md5, p);
      assert e in entries && HasSupportedExtension(e.name, exts);
    }
    if exists e :: e in entries && HasSupportedExtension(e.name, exts) && Stable(e, maxMb, md5)
                   && p == JoinPath(dir, e.name) {
      var e :| e in entries && HasSupportedExtension(e.name, exts) && Stable(e, maxMb, md5)
               && p == JoinPath(dir, e.name);
      ConfirmedComplete(dir, cands, maxMb, md5, e);
    }
  }

  /** What `os.listdir` guarantees of its result: no name twice, and no name
      with a leading `/` (a listed name never contains one). */
  predicate ListingNames(entries: seq<DirEntry>)
  {
    && (forall i, j :: 0 <= i < j < |entries| ==> entries[i].name != entries[j].name)
    && (forall e :: e in entries ==> !StartsWith(e.name, "/"))
  }

  lemma {:induction false} CandidatesListingNames(entries: seq<DirEntry>, exts: seq<string>)
    requires ListingNames(entries)
    ensures ListingNames(Candidates(entries, exts))
  {
    CandidatesMembers(entries, exts);
    if |entries| > 0 {
      var p := entries[..|entries| - 1];
      var e := entries[|entries| - 1];
      CandidatesListingNames(p, exts);
      CandidatesMembers(p, exts);
      if HasSupportedExtension(e.name, exts) {
        var c := Candidates(p, exts);
        forall i | 0 <= i < |c| ensures c[i].name != e.name {
          assert c[i] in p;
          var j :| 0 <= j < |p| && p[j] == c[i];
          assert entries[j] == c[i];
        }
      }
    }
  }

  /** Distinct names give distinct confirmed paths. */
  lemma {:induction false} ConfirmedNoDuplicates(dir: string, cands: seq<DirEntry>, maxMb: int,
                                                md5: seq<bv8> -> string)
    requires ListingNames(cands)
    ensures NoDuplicates(Confirmed(dir, cands, maxMb, md5))
  {
    if |cands| > 0 {
      var q := cands[..|cands| - 1];
      var e := cands[|cands| - 1];
      assert ListingNames(q) by {
        forall d | d in q ensures d in cands { }
      }
      ConfirmedNoDuplicates(dir, q, maxMb, md5);
      var p := Confirmed(dir, q, maxMb, md5);
      var path := JoinPath(dir, e.name);
      forall x | x in p ensures x != path {
        var d := ConfirmedSource(dir, q, maxMb, md5, x);
        var j :| 0 <= j < |q| && q[j] == d;
        assert cands[j] == d;
        JoinPathInjective(dir, d.name, e.name);
      }
      if Stable(e, maxMb, md5) {
        AppendNew(p, path);
      }
    }
  }

  /** No path is returned twice, so `process_all` (lines 173-178) handles each
      stable file of a scan once. */
  lemma StableFilesNoDuplicates(dir: string, entries: seq<DirEntry>, exts: seq<string>, maxMb: int,
                                md5: seq<bv8> -> string)
    requires ListingNames(entries)
    ensures NoDuplicates(StableFiles(dir, entries, exts, maxMb, md5))
  {
    CandidatesListingNames(entries, exts);
    ConfirmedNoDuplicates(dir, Candidates(entries, exts), maxMb, md5);
  }

  /** Lines 127-145: the checksum of every candidate is taken in a first pass,
      and after the pause (not modelled) the loop keeps the paths whose first
      checksum is truthy and equal to a second one. */
  method GetStableFiles(dir: string, entries: seq<DirEntry>, exts: seq<string>, maxMb: int,
                        md5: seq<bv8> -> string) returns (stable: seq<string>)
    ensures stable == StableFiles(dir, entries, exts, maxMb, md5)
  {
    // The dictionary comprehension of lines 129-133: candidates in listing
    // order, each with its first checksum.
    var files := Candidates(entries, exts);
    var sums := FirstChecksums(files, maxMb, md5);
    stable := [];
    for k := 0 to |files|
      invariant stable == Confirmed(dir, files[..k], maxMb, md5)
    {
      ConfirmedStep(dir, files, k, maxMb, md5);
      var path := JoinPath(dir, files[k].name);
      var cksum := sums[k];
      assert cksum == Checksum(files[k].first, maxMb, md5);
      if Truthy(cksum) && cksum == Checksum(files[k].second, maxMb, md5) {
        stable := stable + [path];
      }
    }
    assert files[..|files|] == files;
  }
}
