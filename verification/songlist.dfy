/**
 * `populateSongs`: the song menu's names are the bundle's `.txt` file
 * names with their four-character extension cut off, kept in sorted order.
 * Strings are ordered lexicographically by Unicode scalar value.
 */
module SongList {

  /** `a <= b` for strings: lexicographic, a proper prefix first. */
  predicate LexLe(a: string, b: string) {
    if |a| == 0 then true
    else if |b| == 0 then false
    else if a[0] != b[0] then a[0] < b[0]
    else LexLe(a[1..], b[1..])
  }

  lemma {:induction false} LexLeTotal(a: string, b: string)
    ensures LexLe(a, b) || LexLe(b, a)
  {
    if |a| > 0 && |b| > 0 && a[0] == b[0] {
      LexLeTotal(a[1..], b[1..]);
    }
  }

  lemma {:induction false} LexLeTransitive(a: string, b: string, c: string)
    requires LexLe(a, b) && LexLe(b, c)
    ensures LexLe(a, c)
  {
    if |a| > 0 && |b| > 0 && |c| > 0 && a[0] == b[0] == c[0] {
      LexLeTransitive(a[1..], b[1..], c[1..]);
    }
  }

  lemma {:induction false} LexLeAntisymmetric(a: string, b: string)
    requires LexLe(a, b) && LexLe(b, a)
    ensures a == b
  {
    if |a| > 0 && |b| > 0 {
      LexLeAntisymmetric(a[1..], b[1..]);
      assert a == [a[0]] + a[1..] && b == [b[0]] + b[1..];
    }
  }

  predicate Sorted(names: seq<string>) {
    forall i, j :: 0 <= i < j < |names| ==> LexLe(names[i], names[j])
  }

  /** `String(full[..<full.index(full.endIndex, offsetBy: -4)])`: the file name without its last four characters. */
  function StripExtension(full: string): (name: string)
    requires |full| >= 4
    ensures |name| == |full| - 4 && name <= full
  {
    full[..|full| - 4]
  }

  /** Cutting the extension off `name + ext` gives `name` back, for any four-character `ext`. */
  lemma StripExtensionRoundTrip(name: string, ext: string)
    requires |ext| == 4
    ensures StripExtension(name + ext) == name
  {
    assert (name + ext)[..|name|] == name;
  }

  /** `songs.append(song); songs.sort()` on a sorted list: `song` goes in before the first larger name. */
  function Insert(name: string, songs: seq<string>): (r: seq<string>)
    ensures multiset(r) == multiset(songs) + multiset{name}
    ensures Sorted(songs) ==> Sorted(r)
    decreases |songs|
  {
    if songs == [] then [name]
    else if LexLe(name, songs[0]) then
      InsertBefore(name, songs);
      [name] + songs
    else
      var rest := Insert(name, songs[1..]);
      InsertAfter(name, songs, rest);
      [songs[0]] + rest
  }

  lemma InsertBefore(name: string, songs: seq<string>)
    requires |songs| > 0 && LexLe(name, songs[0])
    ensures Sorted(songs) ==> Sorted([name] + songs)
  {
    if Sorted(songs) {
      forall j | 0 < j < |songs| ensures LexLe(name, songs[j]) {
        LexLeTransitive(name, songs[0], songs[j]);
      }
    }
  }

  lemma InsertAfter(name: string, songs: seq<string>, rest: seq<string>)
    requires |songs| > 0 && !LexLe(name, songs[0])
    requires multiset(rest) == multiset(songs[1..]) + multiset{name}
    requires Sorted(songs[1..]) ==> Sorted(rest)
    ensures multiset([songs[0]] + rest) == multiset(songs) + multiset{name}
    ensures Sorted(songs) ==> Sorted([songs[0]] + rest)
  {
    assert songs == [songs[0]] + songs[1..];
    if Sorted(songs) {
      LexLeTotal(name, songs[0]);
      forall x | x in rest ensures LexLe(songs[0], x) {
        assert x in multiset(rest);
        if x != name {
          assert x in songs[1..];
        }
      }
      var r := [songs[0]] + rest;
      forall i, j | 0 <= i < j < |r| ensures LexLe(r[i], r[j]) {
        if i > 0 {
          assert r[i] == rest[i - 1] && r[j] == rest[j - 1];
        } else {
          assert r[j] in rest;
        }
      }
    }
  }

  /** The song names for a bundle whose `.txt` resources are named `files`, in the order the bundle lists them. */
  function Names(files: seq<string>): (names: seq<string>)
    requires forall i :: 0 <= i < |files| ==> |files[i]| >= 4
    ensures |names| == |files|
    ensures forall i :: 0 <= i < |files| ==> names[i] == StripExtension(files[i])
  {
    seq(|files|, i requires 0 <= i < |files| => StripExtension(files[i]))
  }

  /** `populateSongs`: each file name, extension cut off, appended and the list re-sorted. */
  method PopulateSongs(files: seq<string>) returns (songs: seq<string>)
    requires forall i :: 0 <= i < |files| ==> |files[i]| >= 4
    ensures Sorted(songs)
    ensures multiset(songs) == multiset(Names(files))
  {
    songs := [];
    for i := 0 to |files|
      invariant Sorted(songs)
      invariant multiset(songs) == multiset(Names(files[..i]))
    {
      assert Names(files[..i + 1]) == Names(files[..i]) + [StripExtension(files[i])];
      songs := Insert(StripExtension(files[i]), songs);
    }
    assert files[..|files|] == files;
  }
}
