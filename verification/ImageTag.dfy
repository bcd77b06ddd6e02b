/** IMAGE_TAG among a Portainer stack's variables (updater/portainer_update.py). */
module ImageTag {
  import opened Wrappers
  import opened Collections

  /** A variable as Portainer lists it; a dict without a name has none. */
  datatype Variable = Variable(name: Option<string>, value: string)

  const TAG := Some("IMAGE_TAG")

  function NameOf(v: Variable): Option<string> {
    v.name
  }

  /** The variables with the tag in place of its first entry, its other entries gone; at the end if it had none. */
  function Tagged(env: seq<Variable>, version: string): seq<Variable> {
    if env == [] then [Variable(TAG, version)]
    else if env[0].name == TAG then [Variable(TAG, version)] + Without(env[1..], NameOf, TAG)
    else [env[0]] + Tagged(env[1..], version)
  }

  method WithImageTag(env: seq<Variable>, version: string) returns (out: seq<Variable>)
    ensures out == Tagged(env, version)
  {
    out := Without(env, NameOf, TAG);
    for index := 0 to |env|
      invariant forall k | 0 <= k < index :: env[k].name != TAG
      invariant out == Without(env, NameOf, TAG)
    {
      if env[index].name == TAG {
        FirstAt(env, version, index);
        out := out[..index] + [Variable(TAG, version)] + out[index..];
        return;
      }
    }
    Absent(env, version);
    out := out + [Variable(TAG, version)];
  }

  lemma {:induction false} FirstAt(env: seq<Variable>, version: string, index: nat)
    requires index < |env| && env[index].name == TAG && forall k | 0 <= k < index :: env[k].name != TAG
    ensures var rest := Without(env, NameOf, TAG);
            index <= |rest| && Tagged(env, version) == rest[..index] + [Variable(TAG, version)] + rest[index..]
  {
    if index > 0 {
      FirstAt(env[1..], version, index - 1);
      var rest := Without(env[1..], NameOf, TAG);
      assert ([env[0]] + rest)[..index] == [env[0]] + rest[..index - 1]
          && ([env[0]] + rest)[index..] == rest[index - 1..];
    }
  }

  lemma {:induction false} Absent(env: seq<Variable>, version: string)
    requires forall k | 0 <= k < |env| :: env[k].name != TAG
    ensures Tagged(env, version) == Without(env, NameOf, TAG) + [Variable(TAG, version)]
  {
    if env != [] {
      Absent(env[1..], version);
    }
  }

  /** Exactly one entry names the tag, with the new version; all others stay, in order. */
  lemma {:induction false} TagIsSet(env: seq<Variable>, version: string)
    ensures With(Tagged(env, version), NameOf, Some("IMAGE_TAG")) == [Variable(Some("IMAGE_TAG"), version)]
    ensures Without(Tagged(env, version), NameOf, TAG) == Without(env, NameOf, TAG)
  {
    var tag := Variable(TAG, version);
    assert [tag][1..] == [];
    if env != [] {
      var rest := Without(env[1..], NameOf, TAG);
      if env[0].name == TAG {
        assert ([tag] + rest)[1..] == rest;
        WithoutTwice(env[1..]);
      } else {
        TagIsSet(env[1..], version);
        assert ([env[0]] + Tagged(env[1..], version))[1..] == Tagged(env[1..], version);
      }
    }
  }

  lemma {:induction false} WithoutTwice(env: seq<Variable>)
    ensures With(Without(env, NameOf, TAG), NameOf, TAG) == []
    ensures Without(Without(env, NameOf, TAG), NameOf, TAG) == Without(env, NameOf, TAG)
  {
    if env != [] {
      WithoutTwice(env[1..]);
      var rest := Without(env[1..], NameOf, TAG);
      assert ([env[0]] + rest)[1..] == rest;
    }
  }

  /** The last of two tags stands alone, so tagging the same version again changes nothing. */
  lemma {:induction false} LastTagWins(env: seq<Variable>, first: string, last: string)
    ensures Tagged(Tagged(env, first), last) == Tagged(env, last)
  {
    var tag := Variable(TAG, first);
    assert [tag][1..] == [];
    if env != [] {
      var rest := Without(env[1..], NameOf, TAG);
      if env[0].name == TAG {
        assert ([tag] + rest)[1..] == rest;
        WithoutTwice(env[1..]);
      } else {
        LastTagWins(env[1..], first, last);
        assert ([env[0]] + Tagged(env[1..], first))[1..] == Tagged(env[1..], first);
      }
    }
  }
}
