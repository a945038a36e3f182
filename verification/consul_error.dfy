/** The client's error type. The two kinds stay apart: `Http` means no
    response was delivered, `Consul` means the agent answered and the answer
    was a failure. */
module ConsulError {
  import Hyper

  datatype Error = Http(cause: Hyper.Error) | Consul(message: string)

  /** `From<hyper::Error>`: every transport failure becomes the `Http` kind. */
  function FromHyper(e: Hyper.Error): Error {
    Http(e)
  }
}
