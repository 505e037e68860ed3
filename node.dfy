/** The storage unit of both linked lists (node.py). */
module Nodes {

  /** One value plus its forward and backward links; a fresh node is linked to nothing.
      The singly linked list never reads or writes `prev`. */
  class Node<T> {
    var value: T
    var next: Node?<T>
    var prev: Node?<T>

    constructor (value: T)
      ensures this.value == value
      ensures next == null && prev == null
    {
      this.value := value;
      next := null;
      prev := null;
    }
  }
}
