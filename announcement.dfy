/**
 * What is announced for one branch (main.ts, lines 46-50): a title made of
 * the branch name, a space and "(default)" for the default branch, and a
 * message naming the latest commit's hash and message. The boxed console
 * rendering of the pair is not part of this model.
 *
 * `ParseTitle` and `ParseMessage` read an announcement back; they exist only
 * to state what the two compositions keep.
 */
module Announcement {
  import opened Branches

  datatype Option<T> = None | Some(value: T)

  /** The record the extraction step returns for the page of one branch. */
  datatype CommitInfo = CommitInfo(commitMessage: string, commitHash: string)

  const DefaultSuffix: string := "(default)"
  const MessagePrefix: string := "The latest commit is "
  const HashSeparator: string := ": "

  /** The title of a branch's announcement. */
  function Title(b: Branch): string {
    b.name + " " + (if b.isDefault then DefaultSuffix else "")
  }

  /** The body of a branch's announcement. */
  function Message(c: CommitInfo): string {
    MessagePrefix + c.commitHash + HashSeparator + c.commitMessage
  }

  /** The title is the branch name and a space, followed by "(default)" exactly for the default branch. */
  lemma TitleShape(b: Branch)
    ensures var t := Title(b);
      |t| == |b.name| + 1 + (if b.isDefault then |DefaultSuffix| else 0) &&
      t[..|b.name| + 1] == b.name + " " &&
      t[|b.name| + 1..] == (if b.isDefault then DefaultSuffix else "")
  {
    var t := Title(b);
    assert t == (b.name + " ") + (if b.isDefault then DefaultSuffix else "");
  }

  /**
   * The message is "The latest commit is ", then the hash, then ": ", then
   * the commit message, each in its own slice.
   */
  lemma MessageShape(c: CommitInfo)
    ensures var m, p, h := Message(c), |MessagePrefix|, |c.commitHash|;
      |m| == p + h + |HashSeparator| + |c.commitMessage| &&
      m[..p] == MessagePrefix &&
      m[p..p + h] == c.commitHash &&
      m[p + h..p + h + |HashSeparator|] == HashSeparator &&
      m[|m| - |c.commitMessage|..] == c.commitMessage
  {
    var m := Message(c);
    var hash, sep, msg := c.commitHash, HashSeparator, c.commitMessage;
    assert m == MessagePrefix + hash + (sep + msg);
    Parts(MessagePrefix, hash + (sep + msg));
    Middle(MessagePrefix, hash, sep + msg);
    assert m == (MessagePrefix + hash) + sep + msg;
    Middle(MessagePrefix + hash, sep, msg);
    Parts(MessagePrefix + hash + sep, msg);
  }

  /** Both parts of a concatenation can be sliced back out of it. */
  lemma Parts(a: string, b: string)
    ensures (a + b)[..|a|] == a && (a + b)[|a|..] == b
  {
  }

  /** The middle part of a concatenation of three can be sliced back out of it. */
  lemma Middle(a: string, b: string, c: string)
    ensures (a + b + c)[|a|..|a| + |b|] == b
  {
    assert (a + b + c)[|a|..|a| + |b|] == (a + b)[|a|..];
  }

  /** Reads a title back into the branch it was made for. */
  function ParseTitle(t: string): Option<Branch> {
    var k := |DefaultSuffix| + 1;
    if |t| >= k && t[|t| - k..] == " " + DefaultSuffix then Some(Branch(t[..|t| - k], true))
    else if |t| >= 1 && t[|t| - 1] == ' ' then Some(Branch(t[..|t| - 1], false))
    else None
  }

  /** The title determines the branch: no two branches share a title. */
  lemma TitleRoundTrip(b: Branch)
    ensures ParseTitle(Title(b)) == Some(b)
  {
    var t := Title(b);
    var k := |DefaultSuffix| + 1;
    if b.isDefault {
      assert t == b.name + (" " + DefaultSuffix);
      assert t[|t| - k..] == " " + DefaultSuffix;
      assert t[..|t| - k] == b.name;
    } else {
      assert t == b.name + " ";
      assert t[|t| - 1] == ' ';
      assert |t| >= k ==> t[|t| - k..][k - 1] == ' ';
    }
  }

  lemma TitleInjective(b1: Branch, b2: Branch)
    requires Title(b1) == Title(b2)
    ensures b1 == b2
  {
    TitleRoundTrip(b1);
    TitleRoundTrip(b2);
  }

  /** The index of the first occurrence of `c` in `s`, or `|s|` when there is none. */
  function IndexOf(s: string, c: char): (k: nat)
    ensures k <= |s|
    ensures c !in s[..k]
    ensures k < |s| ==> s[k] == c
  {
    if s == [] || s[0] == c then 0 else 1 + IndexOf(s[1..], c)
  }

  /** Reads a message back into the commit record; the hash ends at the first colon. */
  function ParseMessage(m: string): Option<CommitInfo> {
    var p := |MessagePrefix|;
    if |m| < p || m[..p] != MessagePrefix then None
    else
      var rest := m[p..];
      var k := IndexOf(rest, ':');
      if k + 1 < |rest| && rest[k + 1] == ' ' then Some(CommitInfo(rest[k + 2..], rest[..k]))
      else None
  }

  /** A hash without a colon (a hexadecimal commit hash, say) and the commit message can both be read back from the announced message. */
  lemma MessageRoundTrip(c: CommitInfo)
    requires ':' !in c.commitHash
    ensures ParseMessage(Message(c)) == Some(c)
  {
    var m := Message(c);
    var p := |MessagePrefix|;
    var rest := m[p..];
    assert rest == c.commitHash + HashSeparator + c.commitMessage;
    var h := |c.commitHash|;
    assert rest[..h] == c.commitHash;
    assert rest[h] == ':';
    assert IndexOf(rest, ':') == h by {
      var k := IndexOf(rest, ':');
      assert forall j :: 0 <= j < h ==> rest[j] == c.commitHash[j];
      assert forall j :: 0 <= j < k ==> rest[..k][j] == rest[j];
    }
    assert rest[h + 1] == ' ';
    assert rest[h + 2..] == c.commitMessage;
  }

  /** A colon in the hash makes the message ambiguous: two different records can give the same text. */
  lemma MessageAmbiguousWithColonInHash()
    ensures Message(CommitInfo("c", "a: b")) == Message(CommitInfo("b: c", "a"))
  {
  }
}
