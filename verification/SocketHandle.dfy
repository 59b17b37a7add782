/** SocketHandle.h: a handle that owns a descriptor, and whose copies take it away. */
module SocketHandles {
  import opened Posix

  datatype SocketHandleRef = SocketHandleRef(sockfd: int)

  class SocketHandle {
    var sockfd: int

    constructor Invalid()
      ensures sockfd == -1
    {
      sockfd := -1;
    }

    constructor FromDescriptor(fd: int)
      ensures sockfd == fd
    {
      sockfd := fd;
    }

    /** The copy constructor. */
    constructor Copy(other: SocketHandle)
      modifies other`sockfd
      ensures sockfd == old(other.sockfd) && other.sockfd == -1
    {
      var fd := other.Release();
      sockfd := fd;
    }

    constructor FromRef(ref: SocketHandleRef)
      ensures sockfd == ref.sockfd
    {
      sockfd := ref.sockfd;
    }

    /** operator SocketHandle_Ref. */
    method ToRef() returns (ref: SocketHandleRef)
      modifies this`sockfd
      ensures ref.sockfd == old(sockfd) && sockfd == -1
    {
      var fd := Release();
      ref := SocketHandleRef(fd);
    }

    predicate IsValid()
      reads this
    {
      sockfd >= 0
    }

    method Release() returns (fd: int)
      modifies this`sockfd
      ensures fd == old(sockfd) && sockfd == -1
    {
      var tmp := sockfd;
      sockfd := -1;
      return tmp;
    }

    method Reset(k: Kernel, fd: int)
      modifies this`sockfd, k
      ensures sockfd == fd
      ensures k.st == if fd == old(sockfd) then old(k.st)
                      else TempFailureRetry(k.env, old(k.st), Close(old(sockfd))).0
    {
      if fd != sockfd {
        var _ := k.Retry(Close(sockfd));
        sockfd := fd;
      }
    }

    /** operator=(SocketHandle&), where `other` may be this very handle. */
    method Assign(k: Kernel, other: SocketHandle)
      modifies this`sockfd, other`sockfd, k
      ensures sockfd == old(other.sockfd)
      ensures other != this ==> other.sockfd == -1
      ensures var mine := if other == this then -1 else old(sockfd);
        k.st == if old(other.sockfd) == mine then old(k.st)
                else TempFailureRetry(k.env, old(k.st), Close(mine)).0
    {
      var fd := other.Release();
      Reset(k, fd);
    }

    /** operator=(SocketHandle_Ref). */
    method AssignRef(k: Kernel, ref: SocketHandleRef)
      modifies this`sockfd, k
      ensures sockfd == ref.sockfd
      ensures k.st == if ref.sockfd == old(sockfd) then old(k.st)
                      else TempFailureRetry(k.env, old(k.st), Close(old(sockfd))).0
    {
      Reset(k, ref.sockfd);
    }

    /** ~SocketHandle. */
    method Destroy(k: Kernel)
      modifies this`sockfd, k
      ensures k.st == if old(sockfd) == -1 then old(k.st)
                      else TempFailureRetry(k.env, old(k.st), Close(old(sockfd))).0
    {
      Reset(k, -1);
    }
  }
}
