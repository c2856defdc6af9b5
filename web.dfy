/** The request/response surface the handlers share: the session, the
    places a handler redirects to, and the two ways a handler answers. */
module Web {
  import opened Php

  /** `$_SESSION`: the signed-in technician's id and display name. */
  datatype Session = Session(technicianId: Option<int>, technicianName: Option<string>)

  const SignedOut := Session(None, None)

  /** The `Location:` headers the handlers send. */
  datatype Location =
    | ToIndex                    // index.php
    | ToDashboard                // dashboard.php
    | ToDashboardFeedbackSaved   // dashboard.php?success=feedback (the dashboard ignores the parameter)
    | ToDeviceCheck              // device_check.php
    | ToCreateTicket(deviceId: int)      // create_ticket.php?device_id=<id>
    | ToRegisterDevice(serial: string)   // device_register.php?serial_number=<serial>
    | ToWorkTicket(ticketId: int)        // work_ticket.php?id=<id>

  /** The messages the handlers put in `$errors` (or `$success`); Text gives
      each one's exact wording. */
  datatype Message =
    // index.php
    | LoginRequired | InvalidCredentials
    // signup.php
    | SignupRequired | InvalidEmail | PasswordTooShort | PasswordMismatch | EmailTaken | AccountCreated
    // device_check.php
    | SerialRequired
    // device_register.php
    | DeviceRequired | SerialTaken
    // create_ticket.php
    | TicketRequired
    // part_usage.php
    | PartRequired | QuantityInvalid | CostInvalid | PartRecorded
    // service_feedback.php
    | RemarksRequired
  {
    function Text(): string {
      match this
      case LoginRequired => "Email and password are required."
      case InvalidCredentials => "Invalid credentials. Please try again."
      case SignupRequired => "All fields are required."
      case InvalidEmail => "Please enter a valid email address."
      case PasswordTooShort => "Password must be at least 8 characters."
      case PasswordMismatch => "Passwords do not match."
      case EmailTaken => "An account with this email already exists."
      case AccountCreated => "Account created successfully. You can now sign in."
      case SerialRequired => "Serial number is required."
      case DeviceRequired => "All fields are required."
      case SerialTaken => "A device with this serial number already exists."
      case TicketRequired => "All fields are required."
      case PartRequired => "Part name and cost are required."
      case QuantityInvalid => "Quantity must be a positive number."
      case CostInvalid => "Cost must be a valid number."
      case PartRecorded => "Part usage recorded successfully."
      case RemarksRequired => "Remarks are required."
    }
  }

  /** A handler either redirects, or renders its page with the accumulated
      error messages and the data the page shows. */
  datatype Outcome<V> = Redirect(to: Location) | Render(errors: seq<Message>, view: V)
}
