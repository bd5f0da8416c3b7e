/**
 * The 16-entry colour-name table of the display writer (`color_from_name`).
 *
 * Note on the source: `color_from_name` matches the `Vec<u8>` of lowercased
 * name bytes against `&str` literals, which cannot type-check as written.
 * This module models the evident intent: lowercase the name (ASCII letters
 * only), then look it up exactly among the 16 names.
 */
module Palette {
  import opened Screen

  datatype Option<T> = None | Some(value: T)

  /** The palette in attribute order: the name at index i has colour i. */
  const Names: seq<string> := [
    "black", "blue", "green", "cyan", "red", "magenta", "brown", "light_gray",
    "dark_gray", "light_blue", "light_green", "light_cyan", "light_red", "pink",
    "yellow", "white"
  ]

  /** `u8::to_ascii_lowercase`: only 'A'..'Z' change. */
  function AsciiLower(c: char): (r: char)
    ensures !('A' <= r <= 'Z')
    ensures r != c ==> 'A' <= c <= 'Z' && r as int == c as int + 32
  {
    if 'A' <= c <= 'Z' then (c as int + 32) as char else c
  }

  /** The name's bytes, each ASCII-lowercased. */
  function Lowercase(s: string): (r: string)
    ensures |r| == |s|
    ensures forall i :: 0 <= i < |r| ==> !('A' <= r[i] <= 'Z')
    ensures forall i :: 0 <= i < |r| ==> AsciiLower(r[i]) == AsciiLower(s[i])
  {
    seq(|s|, i requires 0 <= i < |s| => AsciiLower(s[i]))
  }

  /**
   * The match arms of `color_from_name`, tried in order from index `i`:
   * the position of the first entry of `table` equal to `lower`.
   */
  function Lookup(table: seq<string>, lower: string, i: nat): (r: Option<nat>)
    requires i <= |table|
    ensures r.Some? ==> i <= r.value < |table| && table[r.value] == lower
    ensures r.Some? ==> forall j :: i <= j < r.value ==> table[j] != lower
    ensures r.None? ==> forall j :: i <= j < |table| ==> table[j] != lower
    decreases |table| - i
  {
    if i == |table| then None
    else if table[i] == lower then Some(i)
    else Lookup(table, lower, i + 1)
  }

  /**
   * `color_from_name`: the colour whose name equals the ASCII-lowercased
   * name, if there is one.
   */
  function ColorFromName(name: string): (r: Option<Byte>)
    ensures r.Some? ==> r.value < |Names| && Names[r.value] == Lowercase(name)
    ensures r.None? ==> Lowercase(name) !in Names
  {
    match Lookup(Names, Lowercase(name), 0)
    case Some(i) => Some(i)
    case None => None
  }

  lemma LowercaseIdempotent(s: string)
    ensures Lowercase(Lowercase(s)) == Lowercase(s)
  {
  }

  /** Two names that differ only in the case of ASCII letters resolve alike. */
  lemma ColorFromNameIgnoresCase(a: string, b: string)
    requires |a| == |b| && forall i :: 0 <= i < |a| ==> AsciiLower(a[i]) == AsciiLower(b[i])
    ensures ColorFromName(a) == ColorFromName(b)
  {
    assert Lowercase(a) == Lowercase(b);
  }

  /** Looking up an already lowercased name gives the same colour. */
  lemma ColorFromNameOfLowercase(name: string)
    ensures ColorFromName(Lowercase(name)) == ColorFromName(name)
  {
    LowercaseIdempotent(name);
  }

  lemma LowercaseOfLower(s: string)
    requires forall i :: 0 <= i < |s| ==> !('A' <= s[i] <= 'Z')
    ensures Lowercase(s) == s
  {
  }

  /**
   * The table in order: the i-th name maps to attribute i, and a name
   * resolves exactly when its lowercase form is one of the 16 names.
   */
  lemma ColorTable(name: string)
    ensures forall i :: 0 <= i < |Names| ==> ColorFromName(Names[i]) == Some(i)
    ensures ColorFromName(name).Some? <==> Lowercase(name) in Names
  {
    forall i | 0 <= i < |Names|
      ensures ColorFromName(Names[i]) == Some(i)
    {
      TableEntry(i);
    }
  }

  lemma TableEntry(i: nat)
    requires i < |Names|
    ensures ColorFromName(Names[i]) == Some(i)
  {
    NamesAreLowercase();
    NamesDistinct();
  }

  lemma NamesAreLowercase()
    ensures forall i :: 0 <= i < |Names| ==> Lowercase(Names[i]) == Names[i]
  {
    forall i | 0 <= i < |Names|
      ensures Lowercase(Names[i]) == Names[i]
    {
      LowercaseOfLower(Names[i]);
    }
  }

  /** No name appears twice in the table. */
  lemma NamesDistinct()
    ensures forall i, j :: 0 <= i < j < |Names| ==> Names[i] != Names[j]
  {
  }

  /** A valid name resolves, whatever the case of its letters. */
  lemma BlueResolves()
    ensures ColorFromName("blue") == Some(0x01)
    ensures ColorFromName("Blue") == Some(0x01)
    ensures ColorFromName("BLUE") == Some(0x01)
  {
    assert Lookup(Names, "blue", 0) == Some(1);
    LowercaseOfLower("blue");
    assert Lowercase("Blue") == "blue";
    assert Lowercase("BLUE") == "blue";
  }
}
