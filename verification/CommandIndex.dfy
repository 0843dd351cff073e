/** The index of user commands in src/controllers/commands/CommandController.cpp: a map from
    names to commands and a cached bound on the spaces in a name. */
module CommandIndex {
  import opened Options

  datatype Command = Command(name: string, func: string)

  function Spaces(s: string): nat {
    if s == "" then 0 else (if s[0] == ' ' then 1 else 0) + Spaces(s[1..])
  }

  /** The first command with the name. */
  function FirstNamed(items: seq<Command>, name: string): Option<Command> {
    if items == [] then None
    else if items[0].name == name then Some(items[0])
    else FirstNamed(items[1..], name)
  }

  function MaxSpaces(items: seq<Command>): nat {
    if items == [] then 0
    else
      var rest := MaxSpaces(items[1..]);
      if Spaces(items[0].name) > rest then Spaces(items[0].name) else rest
  }

  /** What is looked up under a name: the command at `i` exactly when it is the first one with it. */
  lemma {:induction false} FirstNamedExactlyWhen(items: seq<Command>, name: string, i: nat)
    requires i < |items| && forall j :: 0 <= j < i ==> items[j].name != name
    ensures items[i].name == name ==> FirstNamed(items, name) == Some(items[i])
    ensures i == |items| - 1 && items[i].name != name ==> FirstNamed(items, name) == None
  {
    if i > 0 {
      FirstNamedExactlyWhen(items[1..], name, i - 1);
    }
  }

  /** The bound is the greatest number of spaces in a name, no more and no less. */
  lemma {:induction false} MaxSpacesIsReached(items: seq<Command>)
    ensures forall c :: c in items ==> Spaces(c.name) <= MaxSpaces(items)
    ensures MaxSpaces(items) == 0 || exists c :: c in items && Spaces(c.name) == MaxSpaces(items)
  {
    if items != [] {
      MaxSpacesIsReached(items[1..]);
      assert items[0] in items && forall c :: c in items[1..] ==> c in items;
    }
  }

  /** The map agrees with a scan of the list for every name. */
  ghost predicate Indexed(items: seq<Command>, index: map<string, Command>) {
    && (forall name :: name in index <==> FirstNamed(items, name).Some?)
    && (forall name :: name in index ==> FirstNamed(items, name) == Some(index[name]))
  }

  lemma {:induction false} FirstNamedConcat(a: seq<Command>, b: seq<Command>, name: string)
    ensures FirstNamed(a + b, name) == if FirstNamed(a, name).Some? then FirstNamed(a, name) else FirstNamed(b, name)
  {
    if a == [] {
      assert a + b == b;
    } else {
      assert (a + b)[1..] == a[1..] + b;
      FirstNamedConcat(a[1..], b, name);
    }
  }

  /** Adding or removing a command changes the first match of its own name only. */
  lemma OtherNamesKeep(items: seq<Command>, index: nat, c: Command, name: string)
    requires index <= |items| && name != c.name
    ensures FirstNamed(items[..index] + [c] + items[index..], name) == FirstNamed(items, name)
  {
    assert items == items[..index] + items[index..];
    FirstNamedConcat(items[..index], items[index..], name);
    FirstNamedConcat(items[..index] + [c], items[index..], name);
    FirstNamedConcat(items[..index], [c], name);
    assert FirstNamed([c], name) == None;
  }

  lemma {:induction false} FirstNamedIsIn(items: seq<Command>, name: string)
    requires FirstNamed(items, name).Some?
    ensures FirstNamed(items, name).value in items && FirstNamed(items, name).value.name == name
  {
    if items[0].name != name {
      FirstNamedIsIn(items[1..], name);
    }
  }

  lemma {:induction false} SpacesConcat(a: string, b: string)
    ensures Spaces(a + b) == Spaces(a) + Spaces(b)
  {
    if a == "" {
      assert a + b == b;
    } else {
      assert (a + b)[1..] == a[1..] + b;
      SpacesConcat(a[1..], b);
    }
  }

  /** The first k + 1 words joined by single spaces. */
  function Prefix(words: seq<string>, k: nat): string
    requires k < |words|
  {
    if k == 0 then words[0] else Prefix(words, k - 1) + (" " + words[k])
  }

  /** Each of the first words stands in the prefix, single spaces between them. */
  lemma {:induction false} PrefixHoldsWord(words: seq<string>, k: nat, j: nat) returns (front: string, back: string)
    requires j <= k < |words|
    ensures Prefix(words, k) == front + words[j] + back
    ensures front == if j == 0 then "" else Prefix(words, j - 1) + " "
    ensures if j == k then back == "" else " " + words[j + 1] <= back
  {
    if j == k {
      front := if j == 0 then "" else Prefix(words, j - 1) + " ";
      back := "";
    } else {
      front, back := PrefixHoldsWord(words, k - 1, j);
      back := back + (" " + words[k]);
    }
  }

  lemma {:induction false} PrefixSpaces(words: seq<string>, k: nat)
    requires k < |words|
    ensures Spaces(Prefix(words, k)) >= k
  {
    if k > 0 {
      PrefixSpaces(words, k - 1);
      SpacesConcat(Prefix(words, k - 1), " " + words[k]);
      SpacesConcat(" ", words[k]);
      assert Spaces(" ") == 1;
    }
  }

  /** No command is named by a prefix with more joins than the cached bound, so cutting the
      search off there loses nothing. */
  lemma BeyondTheBound(items: seq<Command>, words: seq<string>, k: nat)
    requires k < |words| && FirstNamed(items, Prefix(words, k)).Some?
    ensures k <= MaxSpaces(items)
  {
    FirstNamedIsIn(items, Prefix(words, k));
    MaxSpacesIsReached(items);
    PrefixSpaces(words, k);
  }

  /** The shortest prefix of at least two words that names a command, and that command. */
  ghost predicate ShortestMatch(items: seq<Command>, words: seq<string>, k: nat, c: Command) {
    && 0 < k < |words|
    && FirstNamed(items, Prefix(words, k)) == Some(c)
    && forall j :: 0 < j < k ==> FirstNamed(items, Prefix(words, j)).None?
  }

  class CommandController {
    var items: seq<Command>
    var userCommands: map<string, Command>
    var maxSpaces: nat

    ghost predicate Valid()
      reads this
    {
      Indexed(items, userCommands) && maxSpaces == MaxSpaces(items)
    }

    constructor ()
      ensures Valid() && items == []
    {
      items, userCommands, maxSpaces := [], map[], 0;
    }

    /** The listener for both insertions and removals; only the named entry is looked at again. */
    method AddFirstMatchToMap(name: string)
      requires forall n :: n != name ==> (n in userCommands <==> FirstNamed(items, n).Some?)
      requires forall n :: n != name && n in userCommands ==> FirstNamed(items, n) == Some(userCommands[n])
      modifies this`userCommands, this`maxSpaces
      ensures Valid()
    {
      userCommands := userCommands - {name};
      ghost var others := userCommands;
      var i := 0;
      while i < |items|
        invariant i <= |items| && userCommands == others
        invariant FirstNamed(items, name) == FirstNamed(items[i..], name)
      {
        var cmd := items[i];
        if cmd.name == name {
          userCommands := userCommands[cmd.name := cmd];
          break;
        }
        i := i + 1;
      }
      assert Indexed(items, userCommands);
      UpdateMaxSpaces();
    }

    /** The second loop of the listener. */
    method UpdateMaxSpaces()
      modifies this`maxSpaces
      ensures maxSpaces == MaxSpaces(items)
    {
      maxSpaces := 0;
      for j := 0 to |items|
        invariant maxSpaces == MaxSpaces(items[..j])
      {
        MaxSpacesOfFront(items[..j], items[j]);
        assert items[..j + 1] == items[..j] + [items[j]];
        var localMaxSpaces := Spaces(items[j].name);
        if localMaxSpaces > maxSpaces {
          maxSpaces := localMaxSpaces;
        }
      }
      assert items[..|items|] == items;
    }

    static lemma {:induction false} MaxSpacesOfFront(front: seq<Command>, c: Command)
      ensures MaxSpaces(front + [c]) == if Spaces(c.name) > MaxSpaces(front) then Spaces(c.name) else MaxSpaces(front)
    {
      if front != [] {
        assert (front + [c])[1..] == front[1..] + [c];
        MaxSpacesOfFront(front[1..], c);
      }
    }

    method Insert(command: Command, index: nat)
      requires Valid() && index <= |items|
      modifies this
      ensures Valid() && items == old(items)[..index] + [command] + old(items)[index..]
    {
      forall n | n != command.name
        ensures FirstNamed(items[..index] + [command] + items[index..], n) == FirstNamed(items, n)
      {
        OtherNamesKeep(items, index, command, n);
      }
      items := items[..index] + [command] + items[index..];
      AddFirstMatchToMap(command.name);
    }

    method RemoveAt(index: nat)
      requires Valid() && index < |items|
      modifies this
      ensures Valid() && items == old(items)[..index] + old(items)[index + 1..]
    {
      var command := items[index];
      ghost var rest := items[..index] + items[index + 1..];
      assert rest[..index] + [command] + rest[index..] == items;
      forall n | n != command.name ensures FirstNamed(rest, n) == FirstNamed(items, n) {
        OtherNamesKeep(rest, index, command, n);
      }
      items := items[..index] + items[index + 1..];
      AddFirstMatchToMap(command.name);
    }

    /** The multi-word part of execCommand. The loop stops at the cached bound, and yet the result
        is that of searching all prefixes: the shortest one naming a command, or none at all. */
    method FindMultiWord(words: seq<string>) returns (r: Option<Command>)
      requires Valid() && words != []
      ensures r.Some? ==> exists k :: ShortestMatch(items, words, k, r.value)
      ensures r.None? ==> forall k :: 0 < k < |words| ==> FirstNamed(items, Prefix(words, k)).None?
    {
      var commandName := words[0];
      var bound := if maxSpaces < |words| - 1 then maxSpaces else |words| - 1;
      for i := 0 to bound
        invariant commandName == Prefix(words, i)
        invariant forall j :: 0 < j <= i ==> FirstNamed(items, Prefix(words, j)).None?
      {
        assert Prefix(words, i + 1) == Prefix(words, i) + (" " + words[i + 1]);
        commandName := commandName + (" " + words[i + 1]);
        if commandName in userCommands {
          assert ShortestMatch(items, words, i + 1, userCommands[commandName]);
          return Some(userCommands[commandName]);
        }
      }
      forall k | 0 < k < |words| ensures FirstNamed(items, Prefix(words, k)).None? {
        if FirstNamed(items, Prefix(words, k)).Some? {
          BeyondTheBound(items, words, k);
        }
      }
      return None;
    }
  }
}
