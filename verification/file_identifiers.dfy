/**
 * The mapping between identifiers and file paths (FileIdentifier) and its
 * default implementation, which shards an identifier into directories of
 * three characters (DefaultFileIdentifier).
 */
module FileIdentifiers {
  import opened Strings
  import opened Results

  /**
   * The two-way converter the store is configured with. Both functions take
   * the path string of the store's base directory first. `toIdentifier` yields
   * `None` where the Java implementation throws.
   */
  datatype FileIdentifier = FileIdentifier(
    toFile: (string, string) -> string,
    toIdentifier: (string, string) -> Option<string>)

  /** The contents of the StringBuilder once the separator-inserting loop of `toFile` is done. */
  function Sharded(identifier: string): string
    decreases |identifier|
  {
    if |identifier| <= 3 then identifier
    else identifier[..3] + [Sep] + Sharded(identifier[3..])
  }

  /** The path segments that `Sharded` produces for a separator-free identifier. */
  function Chunks(identifier: string): seq<string>
    decreases |identifier|
  {
    if |identifier| <= 3 then [identifier]
    else [identifier[..3]] + Chunks(identifier[3..])
  }

  /** `new File(directory, builder.toString())` as a path string, before normalisation. */
  function DefaultPath(directory: string, identifier: string): string
  {
    directory + [Sep] + Sharded(identifier)
  }

  /** DefaultFileIdentifier.toFile: a separator goes in at index 3, 7, 11, ... of the growing builder. */
  method ToFile(directory: string, identifier: string) returns (path: string)
    ensures path == DefaultPath(directory, identifier)
  {
    var builder := identifier;
    var i := 3;
    ghost var done: string := [];
    ghost var k := 0;
    while i < |builder|
      invariant k <= |identifier|
      invariant i == |done| + 3
      invariant builder == done + identifier[k..]
      invariant Sharded(identifier) == done + Sharded(identifier[k..])
      decreases |identifier| - k
    {
      var rest := identifier[k..];
      assert rest[..3] == identifier[k..k + 3] && rest[3..] == identifier[k + 3..];
      builder := builder[..i] + [Sep] + builder[i..];
      done := done + identifier[k..k + 3] + [Sep];
      k := k + 3;
      i := i + 4;
    }
    path := directory + [Sep] + builder;
  }

  /**
   * DefaultFileIdentifier.toIdentifier: delete every occurrence of the base
   * path, drop one leading character (throwing on an empty string), delete
   * every separator.
   */
  function ToIdentifier(directory: string, file: string): (r: Option<string>)
    ensures r.None? <==> RemoveAll(file, directory) == []
    ensures r.Some? ==> Sep !in r.value && |r.value| < |file|
  {
    var stripped := RemoveAll(file, directory);
    if stripped == [] then None
    else Some(RemoveAll(stripped[1..], [Sep]))
  }

  /** The instance the store is created with. */
  const Default: FileIdentifier := FileIdentifier(DefaultPath, ToIdentifier)

  /**
   * Segment `i` is characters `3i` to `3i + 3` of the identifier, cut short at
   * its end: every segment but the last has exactly three characters, the last
   * one to three, and an identifier of at most three characters stays whole.
   */
  lemma {:induction false} ChunksShape(identifier: string)
    requires identifier != []
    ensures |Chunks(identifier)| == (|identifier| + 2) / 3
    ensures forall i | 0 <= i < |Chunks(identifier)| ::
      Chunks(identifier)[i] == identifier[3 * i .. if 3 * i + 3 <= |identifier| then 3 * i + 3 else |identifier|]
    ensures |identifier| <= 3 ==> Chunks(identifier) == [identifier] && Sharded(identifier) == identifier
    decreases |identifier|
  {
    if |identifier| > 3 {
      var tail := identifier[3..];
      ChunksShape(tail);
      forall i | 1 <= i < |Chunks(identifier)|
        ensures Chunks(identifier)[i] == identifier[3 * i .. if 3 * i + 3 <= |identifier| then 3 * i + 3 else |identifier|]
      {
        assert Chunks(identifier)[i] == Chunks(tail)[i - 1];
        var j := i - 1;
        assert tail[3 * j .. if 3 * j + 3 <= |tail| then 3 * j + 3 else |tail|]
            == identifier[3 * i .. if 3 * i + 3 <= |identifier| then 3 * i + 3 else |identifier|];
      }
    }
  }

  /**
   * Splitting the sharded form of a separator-free identifier at the
   * separator gives exactly its chunks, none of them empty; joining the chunks
   * gives the sharded form back.
   */
  lemma {:induction false} ShardedSegments(identifier: string)
    requires identifier != [] && Sep !in identifier
    ensures Split(Sharded(identifier), Sep) == Chunks(identifier)
    ensures Join(Chunks(identifier)) == Sharded(identifier)
    ensures forall i | 0 <= i < |Chunks(identifier)| :: Chunks(identifier)[i] != [] && Sep !in Chunks(identifier)[i]
    decreases |identifier|
  {
    if |identifier| <= 3 {
      SplitWithout(identifier, Sep);
    } else {
      var head, tail := identifier[..3], identifier[3..];
      assert identifier == head + tail;
      assert Sep !in head && Sep !in tail;
      ShardedSegments(tail);
      SplitWithout(head, Sep);
      SplitAppend(head, Sharded(tail), Sep);
      var c := Chunks(identifier);
      assert c == [head] + Chunks(tail);
      assert c[1..] == Chunks(tail);
      assert |Chunks(tail)| >= 1;
    }
  }

  /**
   * The loop never puts a separator at either end: the sharded form begins and
   * ends with the identifier's own first and last character, and it has one
   * separator for every three characters after the first.
   */
  lemma {:induction false} ShardedEnds(identifier: string)
    requires identifier != []
    ensures |Sharded(identifier)| == |identifier| + (|identifier| - 1) / 3
    ensures Sharded(identifier)[0] == identifier[0]
    ensures Sharded(identifier)[|Sharded(identifier)| - 1] == identifier[|identifier| - 1]
    decreases |identifier|
  {
    if |identifier| > 3 {
      ShardedEnds(identifier[3..]);
    }
  }

  /** Deleting the inserted separators from the sharded form gives back what deleting them from the identifier gives. */
  lemma {:induction false} ShardedRemoveSeparators(identifier: string)
    ensures RemoveAll(Sharded(identifier), [Sep]) == RemoveAll(identifier, [Sep])
    decreases |identifier|
  {
    if |identifier| > 3 {
      var head, tail := identifier[..3], identifier[3..];
      ShardedRemoveSeparators(tail);
      RemoveCharAppend(head + [Sep], Sharded(tail), Sep);
      RemoveCharAppend(head, [Sep], Sep);
      RemoveCharAppend(head, tail, Sep);
      assert identifier == head + tail;
    }
  }

  /**
   * Round trip: the identifier of the path `toFile` gives is the original one,
   * provided the identifier has no separator and the base path does not occur
   * again after the leading one (toIdentifier deletes every occurrence).
   */
  lemma RoundTrip(directory: string, identifier: string)
    requires Sep !in identifier
    requires !Occurs(directory, [Sep] + Sharded(identifier))
    ensures ToIdentifier(directory, DefaultPath(directory, identifier)) == Some(identifier)
  {
    var rest := [Sep] + Sharded(identifier);
    var path := directory + rest;
    assert DefaultPath(directory, identifier) == path;
    assert directory != [];
    assert path[..|directory|] == directory && path[|directory|..] == rest;
    RemoveAllAbsent(rest, directory);
    assert RemoveAll(path, directory) == rest;
    assert rest[1..] == Sharded(identifier);
    ShardedRemoveSeparators(identifier);
    RemoveCharAbsent(identifier, Sep);
  }

  /** Distinct separator-free identifiers get distinct paths under the same directory. */
  lemma Injective(directory: string, a: string, b: string)
    requires Sep !in a && Sep !in b
    requires DefaultPath(directory, a) == DefaultPath(directory, b)
    ensures a == b
  {
    assert Sharded(a) == DefaultPath(directory, a)[|directory| + 1..];
    assert Sharded(b) == DefaultPath(directory, b)[|directory| + 1..];
    ShardedRemoveSeparators(a);
    ShardedRemoveSeparators(b);
    RemoveCharAbsent(a, Sep);
    RemoveCharAbsent(b, Sep);
  }

  /**
   * toIdentifier deletes the base path wherever it occurs, not only in front:
   * under `/abc` the identifier `abcxyz` is stored at `/abc/abc/xyz` and read
   * back as `xyz`, and under `/a` the identifier `a` makes substring(1) throw.
   */
  lemma ToIdentifierStripsEveryOccurrence()
    ensures DefaultPath("/abc", "abcxyz") == "/abc/abc/xyz"
    ensures ToIdentifier("/abc", "/abc/abc/xyz") == Some("xyz")
    ensures DefaultPath("/a", "a") == "/a/a"
    ensures ToIdentifier("/a", "/a/a") == None
  {
    var p: string := "/abc/abc/xyz";
    assert p[..4] == "/abc" && p[4..] == "/abc/xyz";
    assert p[4..][..4] == "/abc" && p[8..] == "/xyz";
    assert "/xyz"[..4] != "/abc" && "/xyz"[1..] == "xyz";
    assert RemoveAll("xyz", "/abc") == "xyz";
    assert RemoveAll("/xyz", "/abc") == "/xyz";
    assert RemoveAll(p[4..], "/abc") == "/xyz";
    assert RemoveAll(p, "/abc") == "/xyz";
    RemoveCharAbsent("xyz", Sep);
    var q: string := "/a/a";
    assert q[..2] == "/a" && q[2..] == "/a" && q[2..][2..] == [];
    assert RemoveAll(q, "/a") == [];
  }
}
