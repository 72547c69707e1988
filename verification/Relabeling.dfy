/** Giving the entries of a dictionary other keys. */
module Relabeling {

  predicate Injective(names: map<string, string>)
  {
    forall a, b | a in names && b in names && names[a] == names[b] :: a == b
  }

  /** Which key has a name. */
  function Reverse(names: map<string, string>): map<string, string>
    requires Injective(names)
  {
    map k | k in names :: names[k] := k
  }

  /** The entries under other keys, each looked up under the key that it came from. */
  function Via(files: map<string, string>, back: map<string, string>): map<string, string>
  {
    map n | n in back && back[n] in files :: files[back[n]]
  }

  lemma ReverseAt(names: map<string, string>, k: string)
    requires Injective(names) && k in names
    ensures names[k] in Reverse(names) && Reverse(names)[names[k]] == k
  {
  }

  lemma ReverseFrom(names: map<string, string>, n: string)
    requires Injective(names) && n in Reverse(names)
    ensures Reverse(names)[n] in names && names[Reverse(names)[n]] == n
  {
  }

  /** What makes a dictionary the reverse of another. */
  lemma ReverseIs(names: map<string, string>, back: map<string, string>)
    requires forall k | k in names :: names[k] in back && back[names[k]] == k
    requires forall n | n in back :: back[n] in names && names[back[n]] == n
    ensures Injective(names) && back == Reverse(names)
  {
    forall a, b | a in names && b in names && names[a] == names[b] ensures a == b {
      assert back[names[a]] == a && back[names[b]] == b;
    }
    forall n ensures n in back <==> n in Reverse(names) {
      if n in back {
        ReverseAt(names, back[n]);
      }
      if n in Reverse(names) {
        ReverseFrom(names, n);
      }
    }
  }
}
