/** The images of menu commands: an image list, the command of each image, and the menu bitmap made from each image,
    kept in step as three parallel arrays. */
module CommandImages {
  import opened Common

  type Image = nat

  /** The image of a command: that of its first entry. */
  function ImageOf(commands: seq<nat>, images: seq<Image>, c: nat): Option<Image>
    requires |commands| == |images|
  {
    if commands == [] then None
    else if commands[0] == c then Some(images[0])
    else ImageOf(commands[1..], images[1..], c)
  }

  predicate FirstEntry(commands: seq<nat>, c: nat, i: nat) {
    i < |commands| && commands[i] == c && c !in commands[..i]
  }

  lemma {:induction false} ImageOfFirst(commands: seq<nat>, images: seq<Image>, c: nat, i: int)
    requires |commands| == |images|
    requires if i == -1 then c !in commands else i >= 0 && FirstEntry(commands, c, i)
    ensures ImageOf(commands, images, c) == if i == -1 then None else Some(images[i])
  {
    if i > 0 {
      assert commands[0] != c by { assert commands[..i][0] in commands[..i]; }
      assert commands[1..][..i - 1] == commands[..i][1..];
      forall x | x in commands[1..][..i - 1] ensures x in commands[..i] { }
      ImageOfFirst(commands[1..], images[1..], c, i - 1);
    } else if i == -1 && commands != [] {
      ImageOfFirst(commands[1..], images[1..], c, -1);
    }
  }

  lemma {:induction false} ImageOfSome(commands: seq<nat>, images: seq<Image>, c: nat)
    requires |commands| == |images|
    ensures ImageOf(commands, images, c).Some? <==> c in commands
  {
    if commands != [] && commands[0] != c { ImageOfSome(commands[1..], images[1..], c); }
  }

  lemma {:induction false} AppendKeepsOthers(commands: seq<nat>, images: seq<Image>, c: nat, image: Image, other: nat)
    requires |commands| == |images|
    ensures ImageOf(commands + [c], images + [image], other)
            == if other in commands || other != c then ImageOf(commands, images, other) else Some(image)
  {
    if commands != [] {
      assert (commands + [c])[1..] == commands[1..] + [c] && (images + [image])[1..] == images[1..] + [image];
      AppendKeepsOthers(commands[1..], images[1..], c, image, other);
      assert other in commands <==> other == commands[0] || other in commands[1..];
    }
  }

  lemma {:induction false} RemoveKeepsOthers(commands: seq<nat>, images: seq<Image>, i: nat, other: nat)
    requires |commands| == |images| && i < |commands| && commands[i] != other
    ensures ImageOf(RemoveAt(commands, i), RemoveAt(images, i), other) == ImageOf(commands, images, other)
  {
    if i > 0 {
      assert RemoveAt(commands, i)[1..] == RemoveAt(commands[1..], i - 1) && RemoveAt(images, i)[1..] == RemoveAt(images[1..], i - 1);
      RemoveKeepsOthers(commands[1..], images[1..], i - 1, other);
    } else {
      assert RemoveAt(commands, 0) == commands[1..] && RemoveAt(images, 0) == images[1..];
    }
  }

  lemma {:induction false} UpdateFirstEntry(commands: seq<nat>, images: seq<Image>, c: nat, i: nat, image: Image, other: nat)
    requires |commands| == |images| && FirstEntry(commands, c, i)
    ensures ImageOf(commands, images[i := image], other) == if other == c then Some(image) else ImageOf(commands, images, other)
  {
    if i > 0 {
      assert commands[0] != c by { assert commands[..i][0] in commands[..i]; }
      assert commands[1..][..i - 1] == commands[..i][1..];
      assert images[i := image][1..] == images[1..][i - 1 := image];
      forall x | x in commands[1..][..i - 1] ensures x in commands[..i] { }
      UpdateFirstEntry(commands[1..], images[1..], c, i - 1, image, other);
    }
  }

  class CommandBarImages {
    const isVista: bool
    var imageList: seq<Image>
    var arrCommand: seq<nat>
    var arrVistaBitmap: seq<Image>  // each entry stands for the image its bitmap was made from

    /** The arrays are as long as each other and agree index by index. */
    ghost predicate Aligned()
      reads this
    {
      && |imageList| == |arrCommand|
      && (forall i :: 0 <= i < |arrCommand| ==> arrCommand[i] < 0x1_0000)
      && arrVistaBitmap == if isVista then imageList else []
    }

    /** What a command shows. */
    ghost function Shown(c: nat): Option<Image>
      requires |imageList| == |arrCommand|
      reads this
    {
      ImageOf(arrCommand, imageList, c)
    }

    constructor (vista: bool)
      ensures Aligned() && arrCommand == []
    {
      isVista, imageList, arrCommand, arrVistaBitmap := vista, [], [], [];
    }

    /** AddBitmap and AddIcon; `accepted` is the image list's answer. The command is stored in 16 bits. */
    method Add(image: Image, nCommandID: nat, accepted: bool) returns (done: bool)
      requires Aligned()
      modifies this
      ensures Aligned() && done == accepted
      ensures !done ==> imageList == old(imageList) && arrCommand == old(arrCommand)
      ensures done ==> imageList == old(imageList) + [image] && arrCommand == old(arrCommand) + [nCommandID % 0x1_0000]
      ensures forall c :: Shown(c) == if done && c == nCommandID % 0x1_0000 && c !in old(arrCommand) then Some(image) else old(Shown(c))
    {
      ghost var commands, images := arrCommand, imageList;
      if !accepted {
        return false;
      }
      imageList := imageList + [image];
      arrCommand := arrCommand + [nCommandID % 0x1_0000];
      if isVista {
        arrVistaBitmap := arrVistaBitmap + [imageList[|arrCommand| - 1]];
      }
      forall c ensures Shown(c) == if c == nCommandID % 0x1_0000 && c !in commands then Some(image) else ImageOf(commands, images, c) {
        AppendKeepsOthers(commands, images, nCommandID % 0x1_0000, image, c);
      }
      return true;
    }

    /** The search all replacing and removing operations begin with. */
    method Find(nCommandID: nat) returns (i: int)
      ensures if i == -1 then nCommandID !in arrCommand else i >= 0 && FirstEntry(arrCommand, nCommandID, i)
    {
      i := 0;
      while i < |arrCommand|
        invariant 0 <= i <= |arrCommand| && nCommandID !in arrCommand[..i]
      {
        if arrCommand[i] == nCommandID {
          return;
        }
        i := i + 1;
      }
      return -1;
    }

    /** RemoveImage: removes the first entry of the command from all three arrays. */
    method RemoveImage(nCommandID: nat, accepted: bool) returns (done: bool, ghost at: nat)
      requires Aligned()
      modifies this
      ensures Aligned() && done == (accepted && nCommandID in old(arrCommand))
      ensures !done ==> imageList == old(imageList) && arrCommand == old(arrCommand)
      ensures done ==> FirstEntry(old(arrCommand), nCommandID, at)
                       && arrCommand == RemoveAt(old(arrCommand), at) && imageList == RemoveAt(old(imageList), at)
      ensures forall c :: c != nCommandID ==> Shown(c) == old(Shown(c))
    {
      ghost var commands, images := arrCommand, imageList;
      var i := Find(nCommandID);
      if i == -1 || !accepted {
        return false, 0;
      }
      imageList := RemoveAt(imageList, i);
      arrCommand := RemoveAt(arrCommand, i);
      if isVista {
        arrVistaBitmap := RemoveAt(arrVistaBitmap, i);
      }
      forall c | c != nCommandID ensures Shown(c) == ImageOf(commands, images, c) {
        RemoveKeepsOthers(commands, images, i, c);
      }
      return true, i;
    }

    /** ReplaceIcon: in place. */
    method ReplaceIcon(image: Image, nCommandID: nat, accepted: bool) returns (done: bool)
      requires Aligned()
      modifies this
      ensures Aligned() && arrCommand == old(arrCommand) && done == (accepted && nCommandID in arrCommand)
      ensures forall c :: Shown(c) == if done && c == nCommandID then Some(image) else old(Shown(c))
    {
      ghost var images := imageList;
      var i := Find(nCommandID);
      if i == -1 || !accepted {
        return false;
      }
      imageList := imageList[i := image];
      if isVista {
        arrVistaBitmap := arrVistaBitmap[i := imageList[i]];
      }
      forall c ensures Shown(c) == if c == nCommandID then Some(image) else ImageOf(arrCommand, images, c) {
        UpdateFirstEntry(arrCommand, images, nCommandID, i, image, c);
      }
      return true;
    }

    /** ReplaceBitmap: removes the first entry and adds a new one at the end. The command then shows the new image if
        it had one entry only; otherwise its second entry shows. No other command is affected. */
    method ReplaceBitmap(image: Image, nCommandID: nat, removed: bool, added: bool) returns (done: bool, ghost at: nat)
      requires Aligned()
      modifies this
      ensures Aligned() && done == (removed && added && nCommandID in old(arrCommand))
      ensures var hit := removed && nCommandID in old(arrCommand);
              && (hit ==> FirstEntry(old(arrCommand), nCommandID, at))
              && arrCommand == (if hit then RemoveAt(old(arrCommand), at) else old(arrCommand)) + (if done then [nCommandID] else [])
              && imageList == (if hit then RemoveAt(old(imageList), at) else old(imageList)) + (if done then [image] else [])
      ensures forall c :: c != nCommandID ==> Shown(c) == old(Shown(c))
      ensures done ==> Shown(nCommandID) == if multiset(old(arrCommand))[nCommandID] == 1 then Some(image)
                                            else ImageOf(RemoveAt(old(arrCommand), at), RemoveAt(old(imageList), at), nCommandID)
    {
      ghost var commands := arrCommand;
      done, at := RemoveImage(nCommandID, removed);
      if done {
        CountAfterRemoval(commands, at);
        assert commands[at] < 0x1_0000;
        done := Add(image, nCommandID, added);
      }
    }
  }

  lemma CountAfterRemoval(s: seq<nat>, i: nat)
    requires i < |s|
    ensures multiset(RemoveAt(s, i))[s[i]] == multiset(s)[s[i]] - 1
    ensures s[i] in RemoveAt(s, i) <==> multiset(s)[s[i]] > 1
  {
    assert s == s[..i] + [s[i]] + s[i + 1..];
  }

  /** Replacing the bitmap of a command that was added twice brings its second image to light. */
  lemma SecondImageShows(first: Image, second: Image, replacement: Image, c: nat)
    ensures FirstEntry([c, c], c, 0)
    ensures ImageOf(RemoveAt([c, c], 0) + [c], RemoveAt([first, second], 0) + [replacement], c) == Some(second)
  {
    assert RemoveAt([c, c], 0) + [c] == [c, c] && RemoveAt([first, second], 0) + [replacement] == [second, replacement];
  }
}
