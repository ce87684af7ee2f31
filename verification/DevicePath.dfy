/** Walks over the bytes of EFI device paths (section 10.3 of the UEFI Specification), against the lists of
    nodes those bytes spell. */
module DevicePath {
  import opened Wrappers
  import opened Bytes

  const HEADER: nat := 4
  const END_DEVICE_PATH: nat := 0x7F

  datatype Status = Success | InvalidParameter

  function TypeAt(b: seq<Byte>, at: nat): nat
    requires at + HEADER <= |b|
  {
    b[at]
  }

  /** The node's length, two bytes, low byte first. */
  function LengthAt(b: seq<Byte>, at: nat): nat
    requires at + HEADER <= |b|
  {
    var low: nat, high: nat := b[at + 2], b[at + 3];
    low + 0x100 * high
  }

  /** From `at` on, nodes follow one another within the bytes, the last of them an end node. */
  ghost predicate WellFormed(b: seq<Byte>, at: nat)
    decreases |b| - at
  {
    && at + HEADER <= |b| && LengthAt(b, at) >= HEADER && at + LengthAt(b, at) <= |b|
    && (TypeAt(b, at) == END_DEVICE_PATH || WellFormed(b, at + LengthAt(b, at)))
  }

  /** The nodes before the end node. */
  ghost function Nodes(b: seq<Byte>, at: nat): seq<seq<Byte>>
    requires WellFormed(b, at)
    decreases |b| - at
  {
    if TypeAt(b, at) == END_DEVICE_PATH then []
    else [b[at..at + LengthAt(b, at)]] + Nodes(b, at + LengthAt(b, at))
  }

  /** Where the end node ends. */
  ghost function PathEnd(b: seq<Byte>, at: nat): (e: nat)
    requires WellFormed(b, at)
    ensures at + HEADER <= e <= |b|
    decreases |b| - at
  {
    if TypeAt(b, at) == END_DEVICE_PATH then at + LengthAt(b, at) else PathEnd(b, at + LengthAt(b, at))
  }

  /** Nothing behind the end node matters. */
  lemma {:induction false} Truncated(b: seq<Byte>, at: nat, n: nat)
    requires WellFormed(b, at) && PathEnd(b, at) <= n <= |b|
    ensures WellFormed(b[..n], at) && Nodes(b[..n], at) == Nodes(b, at) && PathEnd(b[..n], at) == PathEnd(b, at)
    decreases |b| - at
  {
    var next := at + LengthAt(b, at);
    assert LengthAt(b[..n], at) == LengthAt(b, at) && TypeAt(b[..n], at) == TypeAt(b, at);
    hide LengthAt, TypeAt;
    if TypeAt(b, at) != END_DEVICE_PATH {
      Truncated(b, next, n);
      assert b[..n][at..next] == b[at..next];
    }
  }

  /** A node that is not an end node, with its own length in its third and fourth byte. */
  predicate IsNode(node: seq<Byte>) {
    && 4 <= |node| < 0x1_0000 && node[0] != 0x7F
    && node[2] == |node| % 0x100 && node[3] == |node| / 0x100
  }

  /** Nodes written one behind the other, an end node, and anything behind it, are read back as those nodes. */
  lemma WrittenRead(nodes: seq<seq<Byte>>, rest: seq<Byte>)
    requires forall i :: 0 <= i < |nodes| ==> IsNode(nodes[i])
    ensures var b := Joined(nodes) + [0x7F, 0xFF, 4, 0] + rest;
            WellFormed(b, 0) && Nodes(b, 0) == nodes && PathEnd(b, 0) == |Joined(nodes)| + 4
  {
    var b, n := Joined(nodes) + [0x7F, 0xFF, 4, 0] + rest, |Joined(nodes)|;
    assert b[..n] == Joined(nodes) && b[n..n + 4] == [0x7F, 0xFF, 4, 0];
    WrittenReadFrom(b, nodes, 0);
  }

  lemma {:induction false} WrittenReadFrom(b: seq<Byte>, nodes: seq<seq<Byte>>, k: nat)
    requires k <= |nodes| && Joined(nodes) <= b
    requires |Joined(nodes)| + 4 <= |b| && b[|Joined(nodes)|..|Joined(nodes)| + 4] == [0x7F, 0xFF, 4, 0]
    requires forall i :: 0 <= i < |nodes| ==> IsNode(nodes[i])
    ensures var at := |Joined(nodes[..k])|;
            WellFormed(b, at) && Nodes(b, at) == nodes[k..] && PathEnd(b, at) == |Joined(nodes)| + 4
    decreases |nodes| - k
  {
    hide WellFormed, Nodes, PathEnd, Joined, IsNode;
    if k == |nodes| {
      assert nodes[..k] == nodes && nodes[k..] == [];
      EndRead(b, |Joined(nodes)|);
    } else {
      WrittenReadFrom(b, nodes, k + 1);
      NodeLies(b, nodes, k);
      var at, next := |Joined(nodes[..k])|, |Joined(nodes[..k + 1])|;
      assert next == at + |nodes[k]|;
      NodeRead(b, at, nodes[k]);
      assert [nodes[k]] + nodes[k + 1..] == nodes[k..];
    }
  }

  lemma EndRead(b: seq<Byte>, at: nat)
    requires at + 4 <= |b| && b[at..at + 4] == [0x7F, 0xFF, 4, 0]
    ensures WellFormed(b, at) && Nodes(b, at) == [] && PathEnd(b, at) == at + 4
  {
    var end := b[at..at + 4];
    assert b[at] == end[0] && b[at + 2] == end[2] && b[at + 3] == end[3];
  }

  /** The bytes of the `k`-th node lie behind those of the nodes before it. */
  lemma NodeLies(b: seq<Byte>, nodes: seq<seq<Byte>>, k: nat)
    requires k < |nodes| && Joined(nodes) <= b
    ensures var at := |Joined(nodes[..k])|;
            && at + |nodes[k]| == |Joined(nodes[..k + 1])| <= |b| && b[at..at + |nodes[k]|] == nodes[k]
  {
    JoinedPrefix(nodes, k + 1);
    assert nodes[..k + 1][..k] == nodes[..k];
    var at, whole := |Joined(nodes[..k])|, Joined(nodes[..k + 1]);
    assert whole == Joined(nodes[..k]) + nodes[k] && whole <= b;
    hide Joined;
    assert b[at..at + |nodes[k]|] == whole[at..at + |nodes[k]|];
  }

  lemma NodeRead(b: seq<Byte>, at: nat, node: seq<Byte>)
    requires IsNode(node) && at + |node| <= |b| && b[at..at + |node|] == node && WellFormed(b, at + |node|)
    ensures WellFormed(b, at) && Nodes(b, at) == [node] + Nodes(b, at + |node|)
    ensures PathEnd(b, at) == PathEnd(b, at + |node|)
  {
    assert b[at] == node[0] && b[at + 2] == node[2] && b[at + 3] == node[3];
  }

  lemma {:induction false} JoinedPrefix(nodes: seq<seq<Byte>>, k: nat)
    requires k <= |nodes|
    ensures Joined(nodes[..k]) <= Joined(nodes)
  {
    if k == |nodes| {
      assert nodes[..k] == nodes;
    } else {
      JoinedPrefix(nodes[..|nodes| - 1], k);
      assert nodes[..|nodes| - 1][..k] == nodes[..k];
    }
  }

  /** DuplicateDevicePath: the copy has the path's nodes and ends with its end node. */
  method DuplicateDevicePath(devicePath: Option<seq<Byte>>) returns (clone: Option<seq<Byte>>)
    requires devicePath.Some? ==> WellFormed(devicePath.value, 0)
    ensures clone.Some? <==> devicePath.Some?
    ensures clone.Some? ==>
              && clone.value == devicePath.value[..PathEnd(devicePath.value, 0)]
              && WellFormed(clone.value, 0) && Nodes(clone.value, 0) == Nodes(devicePath.value, 0)
              && PathEnd(clone.value, 0) == |clone.value|
  {
    if devicePath.None? {
      return None;
    }
    var b := devicePath.value;
    var length: nat, node: nat := 0, 0;
    while true
      invariant node == length && WellFormed(b, node) && PathEnd(b, node) == PathEnd(b, 0)
      decreases |b| - node
    {
      length := length + LengthAt(b, node);
      if TypeAt(b, node) == END_DEVICE_PATH {
        break;
      }
      node := node + LengthAt(b, node);
    }
    if length == 0 {
      return None;
    }
    Truncated(b, 0, length);
    clone := Some(b[..length]);
  }

  /** FindLastBlockDeviceNode: the offset of the last node before the end. On an empty path the caller's
      variable keeps its value. */
  method FindLastBlockDeviceNode(b: seq<Byte>, lastNode: nat) returns (status: Status, last: nat)
    requires WellFormed(b, 0)
    ensures status == InvalidParameter <==> Nodes(b, 0) == []
    ensures status == InvalidParameter ==> last == lastNode
    ensures status == Success ==>
              && WellFormed(b, last) && Nodes(b, last) == [Nodes(b, 0)[|Nodes(b, 0)| - 1]]
              && last == |Joined(Nodes(b, 0)[..|Nodes(b, 0)| - 1])|
  {
    ReachedFirst(b);
    if TypeAt(b, 0) == END_DEVICE_PATH {
      return InvalidParameter, lastNode;
    }
    var endNode: nat, nextNode: nat := 0, 0;
    hide Nodes, Joined, LengthAt, WellFormed;
    ghost var nodes, n: nat := Nodes(b, 0), 0;
    while TypeAt(b, endNode) != END_DEVICE_PATH
      invariant Reached(b, endNode, nodes, n) && endNode + HEADER <= |b|
      invariant if n == 0 then endNode == 0 else Reached(b, nextNode, nodes, n - 1)
      decreases |b| - endNode
    {
      ReachedStep(b, endNode, nodes, n);
      nextNode := endNode;
      endNode := endNode + LengthAt(b, endNode);
      n := n + 1;
    }
    ReachedEnd(b, endNode, nodes, n);
    return Success, nextNode;
  }

  /** At the offset `at` the walk has `n` nodes behind it. */
  ghost predicate Reached(b: seq<Byte>, at: nat, nodes: seq<seq<Byte>>, n: nat) {
    WellFormed(b, at) && n <= |nodes| && Nodes(b, at) == nodes[n..] && at == |Joined(nodes[..n])|
  }

  lemma ReachedFirst(b: seq<Byte>)
    requires WellFormed(b, 0)
    ensures Reached(b, 0, Nodes(b, 0), 0) && HEADER <= |b|
    ensures TypeAt(b, 0) == END_DEVICE_PATH <==> Nodes(b, 0) == []
  {
  }

  lemma ReachedStep(b: seq<Byte>, at: nat, nodes: seq<seq<Byte>>, n: nat)
    requires Reached(b, at, nodes, n) && TypeAt(b, at) != END_DEVICE_PATH
    ensures n < |nodes| && Reached(b, at + LengthAt(b, at), nodes, n + 1)
    ensures LengthAt(b, at) > 0 && at + LengthAt(b, at) + HEADER <= |b|
  {
    assert nodes[n..][0] == nodes[n] && nodes[n..][1..] == nodes[n + 1..];
    assert nodes[..n + 1][..n] == nodes[..n];
  }

  lemma ReachedEnd(b: seq<Byte>, at: nat, nodes: seq<seq<Byte>>, n: nat)
    requires Reached(b, at, nodes, n) && TypeAt(b, at) == END_DEVICE_PATH
    ensures n == |nodes|
    ensures n > 0 ==> nodes[n - 1..] == [nodes[n - 1]]
  {
    assert nodes[n..] == [];
  }

  ghost function Joined(nodes: seq<seq<Byte>>): seq<Byte> {
    if nodes == [] then [] else Joined(nodes[..|nodes| - 1]) + nodes[|nodes| - 1]
  }

  /** CompareMemory: how many bytes agree from the start. */
  method CompareMemory(a: seq<Byte>, i: nat, b: seq<Byte>, j: nat, n: nat) returns (matched: nat)
    requires i + n <= |a| && j + n <= |b|
    ensures matched <= n && (matched == n <==> a[i..i + n] == b[j..j + n])
  {
    matched := 0;
    while matched < n && a[i + matched] == b[j + matched]
      invariant matched <= n && a[i..i + matched] == b[j..j + matched]
    {
      assert a[i..i + matched + 1] == a[i..i + matched] + [a[i + matched]];
      assert b[j..j + matched + 1] == b[j..j + matched] + [b[j + matched]];
      matched := matched + 1;
    }
    if matched < n {
      assert a[i..i + n][matched] != b[j..j + n][matched];
    }
  }

  /** The node comparison in FindParentBlockDevice: the parent's nodes begin the child's. */
  method IsParent(child: seq<Byte>, parent: seq<Byte>) returns (r: bool)
    requires WellFormed(child, 0) && WellFormed(parent, 0)
    ensures r <==> Nodes(parent, 0) <= Nodes(child, 0)
  {
    hide LengthAt;
    var c: nat, p: nat := 0, 0;
    while true
      invariant WellFormed(child, c) && WellFormed(parent, p)
      invariant Nodes(parent, 0) <= Nodes(child, 0) <==> Nodes(parent, p) <= Nodes(child, c)
      decreases |parent| - p
    {
      if TypeAt(parent, p) == END_DEVICE_PATH {
        return true;
      }
      var childLength, parentLength := LengthAt(child, c), LengthAt(parent, p);
      if childLength != parentLength {
        NodesDiffer(child, c, parent, p);
        return false;
      }
      var matched := CompareMemory(child, c, parent, p, parentLength);
      if matched != parentLength {
        NodesDiffer(child, c, parent, p);
        return false;
      }
      assert child[c..c + childLength][0] == parent[p..p + parentLength][0];
      assert Nodes(parent, p)[1..] == Nodes(parent, p + parentLength);
      assert Nodes(child, c)[1..] == Nodes(child, c + childLength);
      PrefixStep(Nodes(parent, p), Nodes(child, c));
      c, p := c + childLength, p + parentLength;
    }
  }

  lemma NodesDiffer(child: seq<Byte>, c: nat, parent: seq<Byte>, p: nat)
    requires WellFormed(child, c) && WellFormed(parent, p) && TypeAt(parent, p) != END_DEVICE_PATH
    requires LengthAt(child, c) != LengthAt(parent, p)
          || child[c..c + LengthAt(child, c)] != parent[p..p + LengthAt(parent, p)]
    ensures !(Nodes(parent, p) <= Nodes(child, c))
  {
    assert |parent[p..p + LengthAt(parent, p)]| == LengthAt(parent, p);
    assert |child[c..c + LengthAt(child, c)]| == LengthAt(child, c);
    if TypeAt(child, c) != END_DEVICE_PATH {
      assert Nodes(parent, p)[0] != Nodes(child, c)[0];
    }
  }

  lemma PrefixStep<T>(x: seq<T>, y: seq<T>)
    requires x != [] && y != [] && x[0] == y[0]
    ensures x <= y <==> x[1..] <= y[1..]
  {
    assert x == [x[0]] + x[1..] && y == [y[0]] + y[1..];
  }

  /** A device of the list other than the child has a path that begins the child's. */
  ghost predicate HasParent(devices: seq<seq<Byte>>, self: nat, child: seq<Byte>, i: nat)
    requires i < |devices| && WellFormed(devices[i], 0) && WellFormed(child, 0)
  {
    i != self && Nodes(devices[i], 0) <= Nodes(child, 0)
  }

  /** FindParentBlockDevice: the first such device, if there is one. `self` is the child's place in the list,
      and out of its range if the child is not listed. Without a parent the caller's variable is kept. */
  method FindParentBlockDevice(devices: seq<seq<Byte>>, self: nat, child: seq<Byte>, parentNode: nat)
    returns (found: bool, parent: nat)
    requires WellFormed(child, 0) && forall i :: 0 <= i < |devices| ==> WellFormed(devices[i], 0)
    ensures found <==> exists i :: 0 <= i < |devices| && HasParent(devices, self, child, i)
    ensures found ==> parent < |devices| && HasParent(devices, self, child, parent)
                      && forall i :: 0 <= i < parent ==> !HasParent(devices, self, child, i)
    ensures !found ==> parent == parentNode
  {
    for i := 0 to |devices|
      invariant forall j :: 0 <= j < i ==> !HasParent(devices, self, child, j)
    {
      if i == self {
        continue;
      }
      var matches := IsParent(child, devices[i]);
      if matches {
        assert HasParent(devices, self, child, i);
        return true, i;
      }
    }
    return false, parentNode;
  }

  /** Both answers depend on the nodes alone, so they are the same for copies of the paths. */
  lemma SameForCopies(devices: seq<seq<Byte>>, copies: seq<seq<Byte>>, self: nat,
                      child: seq<Byte>, copy: seq<Byte>, i: nat)
    requires WellFormed(child, 0) && copy == child[..PathEnd(child, 0)]
    requires |copies| == |devices| && i < |devices|
    requires forall j :: 0 <= j < |devices| ==>
               WellFormed(devices[j], 0) && copies[j] == devices[j][..PathEnd(devices[j], 0)]
    ensures WellFormed(copy, 0) && WellFormed(copies[i], 0) && Nodes(copy, 0) == Nodes(child, 0)
    ensures HasParent(copies, self, copy, i) <==> HasParent(devices, self, child, i)
  {
    Truncated(child, 0, PathEnd(child, 0));
    Truncated(devices[i], 0, PathEnd(devices[i], 0));
  }
}
